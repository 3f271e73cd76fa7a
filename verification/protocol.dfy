/** Values exchanged between the relay server and its clients: connection ids,
    positions, the two message enums, and the line-level view of the TCP
    stream that the server's reader loop works on. */
module Protocol {

  /** Rust's `u32`: connection ids are `u32` on both sides of the wire. */
  newtype u32 = x: int | 0 <= x < 0x1_0000_0000

  /** A connection id, allocated by the server's counter. */
  type Id = u32

  /** An `f32` coordinate. Neither the relay nor the reconciliation computes
      with coordinates: they are stored, copied and compared only. */
  type Coord(==)

  /** `PlayerPos` on the server, `Vector2` in the client's remote-player table. */
  datatype PlayerPos = PlayerPos(x: Coord, y: Coord)

  datatype Option<T> = None | Some(value: T)

  /** What a client sends. */
  datatype ClientMessage = Position(x: Coord, y: Coord)

  /** What the server sends, and what the client decodes. */
  datatype ServerMessage =
    | Welcome(id: Id)
    | Position(id: Id, x: Coord, y: Coord)
    | PlayerLeft(id: Id)

  /** The JSON decoder for client lines; it may reject any line. */
  type Decoder = string -> Option<ClientMessage>

  /** One call of `BufReader::read_line`: a line (with its terminator, if
      any), zero bytes at end of stream, or an I/O error. A line read is
      never empty, since reading zero bytes is the end of the stream. */
  datatype ReadOutcome = Line(text: string) | EndOfStream | ReadError

  /** Rust's `char::is_whitespace`: the Unicode White_Space property. */
  predicate IsWhitespace(c: char) {
    || '\U{9}' <= c <= '\U{D}'
    || c == ' '
    || c == '\U{85}'
    || c == '\U{A0}'
    || c == '\U{1680}'
    || '\U{2000}' <= c <= '\U{200A}'
    || c == '\U{2028}'
    || c == '\U{2029}'
    || c == '\U{202F}'
    || c == '\U{205F}'
    || c == '\U{3000}'
  }

  /** `str::trim_end`: the longest prefix that does not end in whitespace. */
  function TrimEnd(s: string): (t: string)
    ensures t <= s
    ensures forall i :: |t| <= i < |s| ==> IsWhitespace(s[i])
    ensures t == [] || !IsWhitespace(t[|t| - 1])
  {
    if s != [] && IsWhitespace(s[|s| - 1]) then TrimEnd(s[..|s| - 1]) else s
  }

  /** What the server's reader loop does with one line. */
  datatype LineKind = Blank | Malformed | Update(pos: PlayerPos)

  /** Trim the line, skip it when nothing is left, otherwise decode it;
      a line that does not decode is skipped as malformed. */
  function Classify(text: string, decode: Decoder): (k: LineKind)
    ensures k.Blank? <==> forall i :: 0 <= i < |text| ==> IsWhitespace(text[i])
    ensures k.Malformed? <==> !k.Blank? && decode(TrimEnd(text)).None?
    ensures k.Update? ==> decode(TrimEnd(text)) == Some(ClientMessage.Position(k.pos.x, k.pos.y))
  {
    var trimmed := TrimEnd(text);
    if trimmed == [] then Blank
    else match decode(trimmed)
      case None => Malformed
      case Some(m) => Update(PlayerPos(m.x, m.y))
  }
}

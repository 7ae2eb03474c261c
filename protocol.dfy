/** Values exchanged between the chat clients and both servers: JavaScript
    strings, socket identifiers, the registration payload and emit targets. */
module Protocol {

  /** A UTF-16 code unit: JavaScript compares and sorts strings by these. */
  newtype CodeUnit = x: int | 0 <= x < 0x1_0000

  /** A JavaScript string, as the sequence of its UTF-16 code units. */
  type JsString = seq<CodeUnit>

  /** The transport's identifier of one connection (`socket.id`). */
  type SocketId = JsString

  /** A value that may be `undefined` on the JavaScript side. */
  datatype Option<+T> = None | Some(value: T)

  /** `value || ''` for a string that may be missing: both `undefined` and the
      empty string are falsy, so the result is the string or the empty string. */
  function OrEmpty(s: Option<JsString>): (r: JsString)
    ensures s.None? ==> r == []
    ensures s.Some? ==> r == s.value
  {
    match s
    case None => []
    case Some(v) => v
  }

  /** A string literal written in ASCII, as a JavaScript string. */
  function FromAscii(s: string): (r: JsString)
    requires forall i :: 0 <= i < |s| ==> s[i] as int < 0x80
    ensures |r| == |s| && forall i :: 0 <= i < |s| ==> r[i] as int == s[i] as int
  {
    seq(|s|, i requires 0 <= i < |s| => s[i] as int as CodeUnit)
  }

  /** The payload of a `register` event, as the registration form sends it.
      Coordinates are JavaScript numbers that the servers only copy. */
  datatype Draft = Draft(
    username: JsString,
    age: Option<JsString>,
    gender: Option<JsString>,
    country: Option<JsString>,
    state: Option<JsString>,
    latitude: Option<real>,
    longitude: Option<real>)

  /** Where an emit goes: `socket.emit` and `io.to(id).emit` address one
      connection, `io.emit` addresses every connection. */
  datatype Target = ToSocket(id: SocketId) | ToEveryone
}

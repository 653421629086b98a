/** IRC messages as values, and the parser as a function of the text of one line
    (section 2.3 of RFC 1459 with IRCv3 message tags). */
module IrcMessage {
  import opened Bytes

  datatype Tag = Tag(key: seq<byte>, val: seq<byte>)

  datatype Message = Message(tags: seq<Tag>, source: seq<byte>, command: seq<byte>, args: seq<seq<byte>>)

  datatype ParseError = MissingTag | MissingCommand

  datatype Result<+T> = Ok(value: T) | Err(error: ParseError)

  // ------------------------------------------------------------ words

  function FirstWord(s: seq<byte>): seq<byte> {
    s[..Find(s, SP)]
  }

  /** What is left after the first word, its separator and any further spaces. */
  function AfterWord(s: seq<byte>): (r: seq<byte>)
    ensures |r| <= |s|
    ensures s != [] ==> |r| < |s|
    ensures r != [] ==> r[0] != SP
  {
    var k := Find(s, SP);
    if k == |s| then [] else Trim(s[k + 1..])
  }

  // ------------------------------------------------------------ tags

  /** The character an escape sequence stands for. */
  function Escaped(c: byte): byte {
    if c == 58 then SEMI             // \:
    else if c == 115 then SP         // \s
    else if c == 114 then CR         // \r
    else if c == 110 then LF         // \n
    else c
  }

  function Unescape(s: seq<byte>): (r: seq<byte>)
    ensures |r| <= |s|
  {
    if s == [] then []
    else if s[0] != BACKSLASH then [s[0]] + Unescape(s[1..])
    else if |s| == 1 then []
    else [Escaped(s[1])] + Unescape(s[2..])
  }

  function ParseTag(s: seq<byte>): (r: Result<Tag>)
    ensures r.Ok? ==> r.value.key != [] && EQUALS !in r.value.key
  {
    var k := Find(s, EQUALS);
    if k == 0 then Err(MissingTag)
    else if k == |s| then Ok(Tag(s, []))
    else Ok(Tag(s[..k], Unescape(s[k + 1..])))
  }

  function ParseTags(s: seq<byte>): Result<seq<Tag>>
    decreases |s|
  {
    var k := Find(s, SEMI);
    match ParseTag(s[..k])
    case Err(e) => Err(e)
    case Ok(tag) =>
      if k == |s| then Ok([tag])
      else
        match ParseTags(s[k + 1..])
        case Err(e) => Err(e)
        case Ok(tags) => Ok([tag] + tags)
  }

  // ------------------------------------------------------------ messages

  datatype Stage<+T> = Stage(part: T, rest: seq<byte>)

  function TagStage(s: seq<byte>): Stage<Result<seq<Tag>>> {
    if s != [] && s[0] == AT
    then Stage(ParseTags(FirstWord(s[1..])), AfterWord(s[1..]))
    else Stage(Ok([]), s)
  }

  function SourceStage(s: seq<byte>): Stage<seq<byte>> {
    if s != [] && s[0] == COLON
    then Stage(FirstWord(s[1..]), AfterWord(s[1..]))
    else Stage([], s)
  }

  function ParseArgs(s: seq<byte>): seq<seq<byte>>
    decreases |s|
  {
    if s == [] then []
    else if s[0] == COLON then [s[1..]]
    else [FirstWord(s)] + ParseArgs(AfterWord(s))
  }

  function ParseBody(tags: seq<Tag>, s: seq<byte>): Result<Message> {
    var source := SourceStage(s);
    var command := FirstWord(source.rest);
    if command == [] then Err(MissingCommand)
    else Ok(Message(tags, source.part, command, ParseArgs(AfterWord(source.rest))))
  }

  function ParseMessage(s: seq<byte>): Result<Message> {
    var tags := TagStage(Trim(s));
    match tags.part
    case Err(e) => Err(e)
    case Ok(ts) => ParseBody(ts, tags.rest)
  }
}

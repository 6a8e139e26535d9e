/**
 * Command files: which names count as command files (`isCommandFile`,
 * src/index.js:18, 148-155) and how the fields of a parsed file are
 * chosen (`parseCommandFile`, src/index.js:63-80).
 */
module Descriptor {
  import opened Wrappers
  import opened JsText
  import opened JsonValue

  /** The accepted name patterns, in the order they are tried. */
  const AllowedPatterns: seq<string> := [".claude.json", "claude-cmd-"]

  /** A pattern that starts with '.' is a suffix, any other a prefix. */
  predicate Accepts(pattern: string, filename: string) {
    if StartsWith(pattern, ".") then EndsWith(filename, pattern) else StartsWith(filename, pattern)
  }

  /** `isCommandFile(filename)`: some allowed pattern accepts the name. */
  predicate IsCommandFile(filename: string) {
    exists k :: 0 <= k < |AllowedPatterns| && Accepts(AllowedPatterns[k], filename)
  }

  /** The two patterns read as what they mean: a `.claude.json` suffix or a
      `claude-cmd-` prefix, and nothing else. */
  lemma IsCommandFileIff(filename: string)
    ensures IsCommandFile(filename) <==> EndsWith(filename, ".claude.json") || StartsWith(filename, "claude-cmd-")
  {
    assert StartsWith(".claude.json", ".");
    assert "claude-cmd-"[..1][0] == 'c';
    assert Accepts(AllowedPatterns[0], filename) == EndsWith(filename, ".claude.json");
    assert Accepts(AllowedPatterns[1], filename) == StartsWith(filename, "claude-cmd-");
  }

  // ---------------------------------------------------------------------
  // Reading a command file
  // ---------------------------------------------------------------------

  /** What reading and parsing the file gave: a JSON value, or the message
      of the exception `readFileSync` or `JSON.parse` threw. */
  datatype Read = Content(data: Json) | ReadFailed(message: string)

  /** The message of the TypeError a property read on `null` throws (the
      file held the JSON text `null`). */
  const NullReadMessage: string := "Cannot read properties of null (reading 'command')"

  /** `data.key` on a value that is not null. Only objects carry own
      properties; none of the keys read here is a built-in property of a
      string, number, boolean or array, so on those the read is undefined. */
  function Get(data: Json, key: string): (v: Option<Json>)
    ensures v.Some? <==> data.Object? && key in data.fields
    ensures v.Some? ==> v.value == data.fields[key]
  {
    if data.Object? && key in data.fields then Some(data.fields[key]) else None
  }

  /** The value is there and truthy. */
  predicate Present(v: Option<Json>) {
    v.Some? && Truthy(v.value)
  }

  /** `data.key || fallback`: the value when it is there and truthy,
      otherwise the fallback. */
  function Or(v: Option<Json>, fallback: Json): (r: Json)
    ensures Present(v) ==> r == v.value
    ensures !Present(v) ==> r == fallback
  {
    if Present(v) then v.value else fallback
  }

  datatype Metadata = Metadata(id: Json, timestamp: Json, source: Json)

  /** `{ command, description, metadata }` or `{ error }`. */
  datatype Parsed = Parsed(command: Json, description: Json, metadata: Metadata) | ParseError(error: string)

  /** `parseCommandFile`: `uuid` stands for `crypto.randomUUID()` and
      `isoNow` for `new Date().toISOString()`, both taken only when the
      file does not supply the field. */
  function ParseCommandFile(read: Read, uuid: string, isoNow: string): (p: Parsed)
    ensures read.ReadFailed? ==> p == ParseError(read.message)
    ensures read.Content? && read.data.Null? ==> p == ParseError(NullReadMessage)
    ensures read.Content? && !read.data.Null? ==> p.Parsed?
    ensures p.Parsed? ==>
      var d := read.data;
      && (Present(Get(d, "command")) ==> p.command == d.fields["command"])
      && (!Present(Get(d, "command")) && Present(Get(d, "cmd")) ==> p.command == d.fields["cmd"])
      && (!Present(Get(d, "command")) && !Present(Get(d, "cmd")) && Present(Get(d, "script")) ==> p.command == d.fields["script"])
      && (!Present(Get(d, "command")) && !Present(Get(d, "cmd")) && !Present(Get(d, "script")) ==> p.command == Null)
    ensures p.Parsed? ==>
      var d := read.data;
      && (Present(Get(d, "description")) ==> p.description == d.fields["description"])
      && (!Present(Get(d, "description")) && Present(Get(d, "desc")) ==> p.description == d.fields["desc"])
      && (!Present(Get(d, "description")) && !Present(Get(d, "desc")) ==> p.description == Str("No description"))
    ensures p.Parsed? ==>
      var d := read.data;
      && p.metadata.id == (if Present(Get(d, "id")) then d.fields["id"] else Str(uuid))
      && p.metadata.timestamp == (if Present(Get(d, "timestamp")) then d.fields["timestamp"] else Str(isoNow))
      && p.metadata.source == (if Present(Get(d, "source")) then d.fields["source"] else Str("unknown"))
  {
    match read
    case ReadFailed(message) => ParseError(message)
    case Content(d) =>
      if d.Null? then ParseError(NullReadMessage)
      else
        var command := Or(Get(d, "command"), Or(Get(d, "cmd"), Or(Get(d, "script"), Null)));
        var description := Or(Get(d, "description"), Or(Get(d, "desc"), Str("No description")));
        var metadata := Metadata(Or(Get(d, "id"), Str(uuid)), Or(Get(d, "timestamp"), Str(isoNow)), Or(Get(d, "source"), Str("unknown")));
        Parsed(command, description, metadata)
  }

  /** The parsed command is truthy exactly when one of the three command
      keys holds a truthy value. */
  lemma CommandFoundIff(d: Json, uuid: string, isoNow: string)
    requires !d.Null?
    ensures Truthy(ParseCommandFile(Content(d), uuid, isoNow).command) <==>
      Present(Get(d, "command")) || Present(Get(d, "cmd")) || Present(Get(d, "script"))
  {
  }

  // ---------------------------------------------------------------------
  // The cases of tests/run-tests.js:108-159
  // ---------------------------------------------------------------------

  lemma CommandFileNames()
    ensures IsCommandFile("test.claude.json") && IsCommandFile("claude-cmd-12345")
    ensures !IsCommandFile("test.json") && !IsCommandFile("document.pdf")
  {
    IsCommandFileIff("test.claude.json");
    IsCommandFileIff("claude-cmd-12345");
    IsCommandFileIff("test.json");
    IsCommandFileIff("document.pdf");
    assert "document.pdf"[..11][0] == 'd';
    assert "document.pdf"[0..][0] == 'd';
  }

  lemma ParseCommandKey(uuid: string, isoNow: string)
    ensures var p := ParseCommandFile(Content(Object(map["command" := Str("echo test"), "description" := Str("Test")])), uuid, isoNow);
      p.Parsed? && p.command == Str("echo test") && p.description == Str("Test")
  {
  }

  lemma ParseCmdKey(uuid: string, isoNow: string)
    ensures var p := ParseCommandFile(Content(Object(map["cmd" := Str("ls -la")])), uuid, isoNow);
      p.Parsed? && p.command == Str("ls -la") && p.description == Str("No description")
      && p.metadata == Metadata(Str(uuid), Str(isoNow), Str("unknown"))
  {
  }

  lemma ParseScriptKey(uuid: string, isoNow: string)
    ensures var p := ParseCommandFile(Content(Object(map["script" := Str("pwd")])), uuid, isoNow);
      p.Parsed? && p.command == Str("pwd")
  {
  }

  /** An empty `command` is falsy and the next key is used. */
  lemma EmptyCommandFallsThrough(uuid: string, isoNow: string)
    ensures var p := ParseCommandFile(Content(Object(map["command" := Str(""), "cmd" := Str("ls")])), uuid, isoNow);
      p.Parsed? && p.command == Str("ls")
  {
  }
}

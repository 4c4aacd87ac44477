/**
 * The two handlers that turn inbound text messages from the conversation server into
 * console lines (conversation.py, `message_handler` and `error_handler`).
 *
 * A handler receives a loosely typed JSON object; it reads the fields `message`,
 * `metadata.transcript`, `content` and `details`, any of which may be missing, and
 * prints at most one line. The printed line is the handler's result here: `Some(line)`
 * when it prints, `None` when it prints nothing.
 */
module ServerMessages {
  import opened Wrappers

  /** Whether transcripts and responses are echoed to the console (always on). */
  const SeeTranscripts: bool := true

  /** The `metadata` object of a message: it may or may not hold a `transcript` key. */
  datatype Metadata = Metadata(transcript: Option<string>)

  /** A server message as the handlers receive it: either a dictionary whose four
      fields of interest are each present or absent, or some other value. */
  datatype Message =
    | NotADict
    | Dict(kind: Option<string>, metadata: Option<Metadata>, content: Option<string>, details: Option<string>)

  // ---------------------------------------------------------------------------
  // Python's str.strip()
  // ---------------------------------------------------------------------------

  /** The characters for which Python's `str.isspace()` holds, i.e. what `str.strip()`
      with no argument removes. */
  predicate IsSpace(c: char) {
    var n := c as int;
    (0x09 <= n <= 0x0D) || (0x1C <= n <= 0x20) || n == 0x85 || n == 0xA0 || n == 0x1680 ||
    (0x2000 <= n <= 0x200A) || n == 0x2028 || n == 0x2029 || n == 0x202F || n == 0x205F || n == 0x3000
  }

  /** A string with at least one character that is not whitespace. */
  predicate HasVisibleChar(s: string) {
    exists i :: 0 <= i < |s| && !IsSpace(s[i])
  }

  /** `s` without its leading whitespace. */
  function TrimStart(s: string): (r: string)
    ensures |r| <= |s| && r == s[|s| - |r|..]
    ensures r == [] || !IsSpace(r[0])
    ensures forall i :: 0 <= i < |s| - |r| ==> IsSpace(s[i])
  {
    if s != [] && IsSpace(s[0]) then TrimStart(s[1..]) else s
  }

  /** `s` without its trailing whitespace. */
  function TrimEnd(s: string): (r: string)
    ensures |r| <= |s| && r == s[..|r|]
    ensures r == [] || !IsSpace(r[|r| - 1])
    ensures forall i :: |r| <= i < |s| ==> IsSpace(s[i])
  {
    if s != [] && IsSpace(s[|s| - 1]) then TrimEnd(s[..|s| - 1]) else s
  }

  /** Python's `s.strip()`: a contiguous piece of `s` that neither starts nor ends with
      whitespace, the characters around it being all whitespace. */
  function Strip(s: string): (r: string)
    ensures |r| <= |s|
    ensures exists i {:trigger s[i..]} ::
              && 0 <= i <= |s| - |r| && r == s[i..][..|r|]
              && (forall j :: 0 <= j < i ==> IsSpace(s[j]))
              && (forall j :: i + |r| <= j < |s| ==> IsSpace(s[j]))
    ensures r == [] || (!IsSpace(r[0]) && !IsSpace(r[|r| - 1]))
  {
    var t := TrimStart(s);
    var i := |s| - |t|;
    assert t == s[i..];
    TrimEnd(t)
  }

  /** Stripping leaves something exactly when the string has a visible character, so
      `if transcript.strip()` tests `HasVisibleChar(transcript)`. */
  lemma StripNonEmptyIff(s: string)
    ensures Strip(s) != "" <==> HasVisibleChar(s)
  {
    var t := TrimStart(s);
    var r := TrimEnd(t);
    if r != "" {
      assert r[0] == t[0] == s[|s| - |t|];
      assert !IsSpace(s[|s| - |t|]);
    } else {
      // TrimEnd(t) == "" leaves t all whitespace, so t (which starts with a visible
      // character when non-empty) is empty and TrimStart removed the whole of s.
      assert t == [];
    }
  }

  // ---------------------------------------------------------------------------
  // The handlers
  // ---------------------------------------------------------------------------

  /** `message_handler`: echoes a final user transcript or an agent response. Only a
      dictionary of one of the three handled kinds can print, and the line is labelled
      by its kind. */
  function MessageHandler(msg: Message): (r: Option<string>)
    ensures r.Some? ==> msg.Dict? && KindOf(msg) in {"AddTranscript", "ResponseCompleted", "ResponseInterrupted"}
    ensures r.Some? && KindOf(msg) == "AddTranscript" ==> "User: " <= r.value
    ensures r.Some? && KindOf(msg) == "ResponseCompleted" ==> "AI (completed): " <= r.value
    ensures r.Some? && KindOf(msg) == "ResponseInterrupted" ==> "AI (interrupted): " <= r.value
  {
    match msg
    case NotADict => None
    case Dict(kind, metadata, content, _) =>
      var messageType := kind.GetOr("");
      if messageType == "AddTranscript" then
        if metadata.Some? && metadata.value.transcript.Some? then
          var transcript := metadata.value.transcript.value;
          if Strip(transcript) != "" && SeeTranscripts then Some("User: " + transcript) else None
        else None
      else if messageType == "ResponseCompleted" then
        var text := content.GetOr("");
        if text != "" && SeeTranscripts then Some("AI (completed): " + text) else None
      else if messageType == "ResponseInterrupted" then
        var text := content.GetOr("");
        if text != "" && SeeTranscripts then Some("AI (interrupted): " + text) else None
      else None
  }

  /** `error_handler`: reports a server error or warning. It prints exactly for the two
      kinds, even when `details` is missing, and ends the line with the details. */
  function ErrorHandler(msg: Message): (r: Option<string>)
    ensures r.Some? <==> msg.Dict? && KindOf(msg) in {"Error", "Warning"}
    ensures r.Some? ==>
      |r.value| >= |msg.details.GetOr("")| && r.value[|r.value| - |msg.details.GetOr("")|..] == msg.details.GetOr("")
  {
    match msg
    case NotADict => None
    case Dict(kind, _, _, details) =>
      var messageType := kind.GetOr("");
      var text := details.GetOr("");
      if messageType == "Error" then Some("Error: " + text)
      else if messageType == "Warning" then Some("Warning: " + text)
      else None
  }

  /** The message kind a dictionary carries, with a missing `message` read as "". */
  function KindOf(msg: Message): string
    requires msg.Dict?
  {
    msg.kind.GetOr("")
  }

  // ---------------------------------------------------------------------------
  // Properties of message_handler
  // ---------------------------------------------------------------------------

  /** Only dictionaries of the three handled kinds can produce output; a missing kind
      counts as "" and is silent. */
  lemma MessageHandlerIgnoresOtherKinds(msg: Message)
    requires msg.NotADict? || KindOf(msg) !in {"AddTranscript", "ResponseCompleted", "ResponseInterrupted"}
    ensures MessageHandler(msg) == None
  {
  }

  /** An AddTranscript message prints exactly when it carries `metadata.transcript`
      with a visible character, and then prints the transcript as received (untrimmed). */
  lemma TranscriptLine(msg: Message)
    requires msg.Dict? && KindOf(msg) == "AddTranscript"
    ensures MessageHandler(msg).Some? <==>
      msg.metadata.Some? && msg.metadata.value.transcript.Some? &&
      HasVisibleChar(msg.metadata.value.transcript.value)
    ensures MessageHandler(msg).Some? ==>
      MessageHandler(msg).value == "User: " + msg.metadata.value.transcript.value
  {
    if msg.metadata.Some? && msg.metadata.value.transcript.Some? {
      StripNonEmptyIff(msg.metadata.value.transcript.value);
    }
  }

  /** A completed and an interrupted response print nothing when `content` is missing or
      empty; with the same non-empty content they print two different lines. */
  lemma ResponseKindsLabelledApart(content: Option<string>, metadata: Option<Metadata>, details: Option<string>)
    ensures var done := MessageHandler(Dict(Some("ResponseCompleted"), metadata, content, details));
            var cut := MessageHandler(Dict(Some("ResponseInterrupted"), metadata, content, details));
            if content.GetOr("") == "" then done == None && cut == None
            else done.Some? && cut.Some? && done.value != cut.value &&
                 done.value[|done.value| - |content.value|..] == content.value &&
                 cut.value[|cut.value| - |content.value|..] == content.value
  {
    if content.GetOr("") != "" {
      var c := content.value;
      var done := "AI (completed): " + c;
      var cut := "AI (interrupted): " + c;
      assert done[4] == 'c' && cut[4] == 'i';
      assert done[|done| - |c|..] == c;
      assert cut[|cut| - |c|..] == c;
    }
  }

  /** Every line `message_handler` prints, characterised without reference to `strip`:
      a user transcript with a visible character, or a non-empty response. */
  lemma MessageHandlerLines(msg: Message, line: string)
    ensures MessageHandler(msg) == Some(line) <==>
      msg.Dict? &&
      ((KindOf(msg) == "AddTranscript" && msg.metadata.Some? && msg.metadata.value.transcript.Some? &&
        HasVisibleChar(msg.metadata.value.transcript.value) &&
        line == "User: " + msg.metadata.value.transcript.value) ||
       (KindOf(msg) == "ResponseCompleted" && msg.content.GetOr("") != "" &&
        line == "AI (completed): " + msg.content.value) ||
       (KindOf(msg) == "ResponseInterrupted" && msg.content.GetOr("") != "" &&
        line == "AI (interrupted): " + msg.content.value))
  {
    if msg.Dict? && KindOf(msg) == "AddTranscript" {
      TranscriptLine(msg);
    }
  }

  // ---------------------------------------------------------------------------
  // Properties of error_handler
  // ---------------------------------------------------------------------------

  /** `error_handler` prints exactly for dictionaries of kind Error or Warning, never
      fails on a missing `details` (it reads as ""), and prints the details verbatim. */
  lemma ErrorHandlerLines(msg: Message)
    ensures ErrorHandler(msg).Some? <==> msg.Dict? && KindOf(msg) in {"Error", "Warning"}
    ensures msg.Dict? && KindOf(msg) == "Error" ==> ErrorHandler(msg) == Some("Error: " + msg.details.GetOr(""))
    ensures msg.Dict? && KindOf(msg) == "Warning" ==> ErrorHandler(msg) == Some("Warning: " + msg.details.GetOr(""))
    ensures msg.Dict? && msg.details.None? && KindOf(msg) == "Error" ==> ErrorHandler(msg) == Some("Error: ")
  {
    assert "Error: " + "" == "Error: ";
  }

  /** An error line and a warning line can never be confused, whatever their details. */
  lemma ErrorAndWarningDistinguishable(e: Message, w: Message)
    requires e.Dict? && KindOf(e) == "Error"
    requires w.Dict? && KindOf(w) == "Warning"
    ensures ErrorHandler(e).Some? && ErrorHandler(w).Some? && ErrorHandler(e) != ErrorHandler(w)
  {
    var el := ErrorHandler(e).value;
    var wl := ErrorHandler(w).value;
    assert el[0] == 'E' && wl[0] == 'W';
  }
}

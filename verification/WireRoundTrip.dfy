/** The daemon's replies end to end: what was encoded is decoded, and decoding agrees with the parser. */
module WireRoundTrip {
  import opened Options
  import opened Ordering
  import opened JsonGrammar
  import opened JsonLexical
  import opened JsonNumber
  import Text
  import opened Escaping
  import opened WireInput
  import opened WireOutput
  import opened WireRequest
  import opened WireNumbers
  import opened WireResponse

  // ---- agreement with the reference parser -----------------------------------------------

  /** The members seen so far say the same. */
  ghost predicate Agrees(reply: Reply, members: seq<Member<Json>>) {
    && (reply.out.Some? ==> Lookup(members, "stdout") == Some(String(reply.out.value)))
    && (reply.err.Some? ==> Lookup(members, "stderr") == Some(String(reply.err.value)))
    && (reply.code.Some? ==> CodeIn(Lookup(members, "exit_code"), reply.code.value))
  }

  predicate CodeIn(v: Option<Json>, code: int) {
    v.Some? && v.value.Number? && CodeOf(v.value.bits) == Some(code)
  }

  /** The reply's own reading of a member is the parser's. */
  lemma {:induction false} StepAgrees(read: Reader, key: string, s: string, reply: Reply, members: seq<Member<Json>>)
    requires Sorted(members) && Agrees(reply, members) && MemberStep(read, key, s, reply).Some?
    ensures ParseValue(read, s).Some? && ParseValue(read, s).value.rest == MemberStep(read, key, s, reply).value.rest
    ensures Agrees(MemberStep(read, key, s, reply).value.reply, Put(members, key, ParseValue(read, s).value.value))
  {
    hide StringBody, NumberRun, NumberAt, CodeOf, Blank, ParseContainer, Lookup, Put, Less;
    BlankTwice(s);
    StringValue(read, s);
    var v := ParseValue(read, s).value.value;
    PutLookup(members, key, v, "stdout");
    PutLookup(members, key, v, "stderr");
    PutLookup(members, key, v, "exit_code");
  }

  lemma {:induction false} MembersAgree(read: Reader, s: string, reply: Reply, members: seq<Member<Json>>, h: nat)
    requires Sorted(members) && Agrees(reply, members) && MembersFrom(read, s, reply).Some?
    ensures var p := ParseMembers(read, s, members, h);
            p.Some? && Blank(p.value.rest) == "" && p.value.value.Object?
                && Agrees(MembersFrom(read, s, reply).value, p.value.value.members)
    decreases |s|
  {
    hide Agrees, MemberStep, ParseValue, StringToken, Blank, Consume, Put, MembersFrom, Sorted;
    MembersStep(read, s, reply);
    var key := KeyPart(true, s).value;
    var step := MemberStep(read, key.text, key.rest, reply).value;
    StepAgrees(read, key.text, key.rest, reply, members);
    var v := ParseValue(read, key.rest).value;
    PutSorted(members, key.text, v.value);
    if Consume(step.rest, '}').None? {
      MembersAgree(read, Consume(step.rest, ',').value, step.reply, Put(members, key.text, v.value), Max(h, v.height));
    }
  }

  /** An accepted reply is an object whose three members are what was returned. */
  lemma {:induction false} ResponseIsObject(read: Reader, s: string)
    requires DecodeResponse(read, s).Some?
    ensures var r, p := DecodeResponse(read, s).value, ParseText(read, s);
            && p.Some? && p.value.value.Object?
            && Lookup(p.value.value.members, "stdout") == Some(String(r.out.value))
            && Lookup(p.value.value.members, "stderr") == Some(String(r.err.value))
            && CodeIn(Lookup(p.value.value.members, "exit_code"), r.code.value)
  {
    hide MembersFrom, ParseMembers, Lookup, Blank, ParseValue, CodeIn;
    var open := Consume(s, '{').value;
    ObjectValue(read, s);
    MembersAgree(read, open, NOTHING, [], 0);
  }

  lemma ObjectValue(read: Reader, s: string)
    requires Consume(s, '{').Some? && Consume(Consume(s, '{').value, '}').None?
    ensures ParseValue(read, s) == ParseMembers(read, Consume(s, '{').value, [], 0)
  {
    hide ParseMembers, ParseItems, Blank;
    var t := Blank(s);
    assert ParseValue(read, s) == ParseToken(read, t) == ParseContainer(read, true, t[1..]);
  }

  // ---- the encoder undone ----------------------------------------------------------------

  function Field(key: string): string { "\"" + key + "\":" }

  lemma FieldReads(key: string, rest: string)
    requires Plain(key, false)
    ensures KeyPart(true, Field(key) + rest) == Some(Quoted(key, rest))
  {
    hide Escape, StringBody, Blank;
    var s := Field(key) + rest;
    EscapePlain(key, false);
    EscapeRoundTrip(key, false, ":" + rest);
    BlankStops(s);
    assert s[1..] == key + "\"" + (":" + rest);
    BlankStops(":" + rest);
    assert (":" + rest)[1..] == rest;
  }

  /** One encoded member, decoded. */
  lemma OneMember(read: Reader, key: string, text: string, rest: string, reply: Reply, next: Reply)
    requires Plain(key, false) && MemberStep(read, key, text + rest, reply) == Some(Step(next, rest)) && rest != ""
    ensures rest[0] == ',' ==> MembersFrom(read, Field(key) + text + rest, reply) == MembersFrom(read, rest[1..], next)
    ensures rest == "}\n" ==> MembersFrom(read, Field(key) + text + rest, reply) == Some(next)
  {
    hide MembersFrom, MemberStep, Blank, KeyPart;
    var s := Field(key) + text + rest;
    assert s == Field(key) + (text + rest);
    FieldReads(key, text + rest);
    MembersStep(read, s, reply);
    if rest[0] == ',' || rest == "}\n" {
      BlankStops(rest);
      OnlyNewline();
    }
  }

  lemma PlainKeys()
    ensures Plain("ok", false) && Plain("exit_code", false) && Plain("errno", false) && Plain("stdout", false)
            && Plain("stderr", false)
  {
    forall c: char | c != '"' && c != '\\' && c as int >= 0x20
      ensures EscapeChar(c, false) == [c]
    {}
    hide EscapeChar;
  }

  /** The end of a reply, from its last members backwards. */
  function Streams(out: string, err: string): string {
    "," + Field("stdout") + Quote(out, false) + ("," + Field("stderr") + Quote(err, false) + "}\n")
  }

  function Codes(code: int, number: int, rest: string): string {
    "," + Field("exit_code") + IntText(code) + ("," + Field("errno") + IntText(number) + rest)
  }

  lemma ResponseShape(ok: bool, code: int, number: int, out: string, err: string)
    ensures ResponseText(ok, code, number, out, err)
         == "{" + (Field("ok") + (if ok then "true" else "false") + Codes(code, number, Streams(out, err)))
  {
    hide Escape, IntText;
    HeaderShape(ok, IntText(code), IntText(number));
    TailShape(Escape(out, false), Escape(err, false));
  }

  lemma HeaderShape(ok: bool, code: string, number: string)
    ensures (if ok then "{\"ok\":true,\"exit_code\":" else "{\"ok\":false,\"exit_code\":") + code + ",\"errno\":"
            + number + ",\"stdout\":\""
         == "{" + (Field("ok") + (if ok then "true" else "false")
                   + ("," + Field("exit_code") + code
                       + ("," + Field("errno") + number + ("," + Field("stdout") + "\""))))
  {
    var flag := if ok then "true" else "false";
    assert "{" + (Field("ok") + "true") + ("," + Field("exit_code")) == "{\"ok\":true,\"exit_code\":";
    assert "{" + (Field("ok") + "false") + ("," + Field("exit_code")) == "{\"ok\":false,\"exit_code\":";
    assert "," + Field("errno") == ",\"errno\":";
    assert "," + Field("stdout") + "\"" == ",\"stdout\":\"";
    Associate("{", Field("ok") + flag, "," + Field("exit_code"), code, "," + Field("errno"), number,
        "," + Field("stdout") + "\"");
  }

  lemma Associate(a: string, b: string, c: string, d: string, e: string, f: string, g: string)
    ensures a + b + c + d + e + f + g == a + (b + (c + d + (e + f + g)))
  {
    assert (a + b + c + d + e + f) + g == (a + b + c + d) + (e + f + g);
    assert (a + b + c + d) + (e + f + g) == (a + b) + (c + d + (e + f + g));
  }

  lemma TailShape(out: string, err: string)
    ensures "\"" + out + MIDDLE + err + "\"}\n"
         == "\"" + out + "\"" + ("," + Field("stderr") + ("\"" + err + "\"") + "}\n")
  {
    assert "\"" + ("," + Field("stderr") + "\"") == MIDDLE;
  }

  lemma TextMember(read: Reader, text: string, rest: string, reply: Reply, error: bool)
    ensures MemberStep(read, if error then "stderr" else "stdout", Quote(text, false) + rest, reply)
         == Some(Step(if error then reply.(err := Some(text)) else reply.(out := Some(text)), rest))
  {
    hide Escape, StringToken, Blank, Skipped;
    QuotedToken(text, rest);
    BlankStops(Quote(text, false) + rest);
  }

  lemma StreamsDecode(read: Reader, out: string, err: string, reply: Reply)
    ensures MembersFrom(read, Streams(out, err)[1..], reply) == Some(reply.(out := Some(out), err := Some(err)))
  {
    hide MembersFrom, MemberStep, Quote, Plain;
    PlainKeys();
    var last := "," + Field("stderr") + Quote(err, false) + "}\n";
    assert Streams(out, err)[1..] == Field("stdout") + Quote(out, false) + last;
    assert last[1..] == Field("stderr") + Quote(err, false) + "}\n";
    TextMember(read, out, last, reply, false);
    OneMember(read, "stdout", Quote(out, false), last, reply, reply.(out := Some(out)));
    TextMember(read, err, "}\n", reply.(out := Some(out)), true);
    OneMember(read, "stderr", Quote(err, false), "}\n", reply.(out := Some(out)),
        reply.(out := Some(out), err := Some(err)));
  }

  lemma CodeDecodes(read: Reader, code: int, rest: string, reply: Reply)
    requires IsReader(read) && IsInt(code) && Delimited(rest)
    ensures MemberStep(read, "exit_code", IntText(code) + rest, reply) == Some(Step(reply.(code := Some(code)), rest))
  {
    hide IntText, NumberRun, NumberAt, CodeOf, Blank, IsReader, Skipped;
    IntParses(read, code, rest);
    BlankStops(IntText(code) + rest);
  }

  lemma NumberSkipped(read: Reader, number: int, rest: string, reply: Reply)
    requires IsReader(read) && IsInt(number) && Delimited(rest)
    ensures MemberStep(read, "errno", IntText(number) + rest, reply) == Some(Step(reply, rest))
  {
    hide IntText, NumberRun, NumberAt, CodeOf, Blank, IsReader;
    var s := IntText(number) + rest;
    IntParses(read, number, rest);
    BlankStops(s);
    assert s[0] == IntText(number)[0];
    assert ParseScalar(read, s) == Some(Parsed(Json.Number(NumberAt(read, s).value), rest, 1));
    assert ParseValue(read, s) == ParseScalar(read, s);
  }

  lemma FlagSkipped(read: Reader, ok: bool, rest: string, reply: Reply)
    ensures MemberStep(read, "ok", (if ok then "true" else "false") + rest, reply) == Some(Step(reply, rest))
  {
    hide Blank;
    var s := (if ok then "true" else "false") + rest;
    BlankStops(s);
    var word := if ok then "true" else "false";
    assert word <= s && s[|word|..] == rest && s[0] == word[0];
    assert ParseScalar(read, s) == Some(Parsed(Bool(ok), rest, 1));
    assert ParseValue(read, s) == ParseScalar(read, s);
  }

  lemma CodesDecode(read: Reader, code: int, number: int, rest: string, reply: Reply)
    requires IsReader(read) && IsInt(code) && IsInt(number) && rest != "" && rest[0] == ','
    ensures MembersFrom(read, Codes(code, number, rest)[1..], reply)
            == MembersFrom(read, rest[1..], reply.(code := Some(code)))
  {
    hide MembersFrom, MemberStep, IntText, IsReader, Plain;
    PlainKeys();
    var last := "," + Field("errno") + IntText(number) + rest;
    assert Codes(code, number, rest)[1..] == Field("exit_code") + IntText(code) + last;
    assert last[1..] == Field("errno") + IntText(number) + rest;
    CodeDecodes(read, code, last, reply);
    OneMember(read, "exit_code", IntText(code), last, reply, reply.(code := Some(code)));
    NumberSkipped(read, number, rest, reply.(code := Some(code)));
    OneMember(read, "errno", IntText(number), rest, reply.(code := Some(code)), reply.(code := Some(code)));
  }

  /** The client gets back the code and the two byte strings. */
  lemma ResponseRoundTrip(read: Reader, ok: bool, code: int, number: int, out: string, err: string)
    requires IsReader(read) && IsInt(code) && IsInt(number)
    ensures DecodeResponse(read, ResponseText(ok, code, number, out, err))
            == Some(Reply(Some(code), Some(out), Some(err)))
  {
    hide MembersFrom, MemberStep, IsReader, Codes, Streams, Plain, Blank, ResponseText;
    PlainKeys();
    var streams := Streams(out, err);
    var codes := Codes(code, number, streams);
    var body := Field("ok") + (if ok then "true" else "false") + codes;
    var s := ResponseText(ok, code, number, out, err);
    ResponseShape(ok, code, number, out, err);
    assert s[1..] == body && body[0] == '"';
    BlankStops(s);
    BlankStops(body);
    CommaStarts(code, number, streams, out, err);
    FlagSkipped(read, ok, codes, NOTHING);
    OneMember(read, "ok", if ok then "true" else "false", codes, NOTHING, NOTHING);
    CodesDecode(read, code, number, streams, NOTHING);
    StreamsDecode(read, out, err, NOTHING.(code := Some(code)));
  }

  lemma CommaStarts(code: int, number: int, rest: string, out: string, err: string)
    ensures Codes(code, number, rest) != "" && Codes(code, number, rest)[0] == ','
    ensures Streams(out, err) != "" && Streams(out, err)[0] == ','
  {
    hide IntText, Quote;
  }

  // ---- whole messages --------------------------------------------------------------------

  predicate OneLine(s: string) { forall i :: 0 <= i < |s| ==> s[i] != '\n' }

  lemma {:induction false} EscapeIsOneLine(s: string)
    ensures OneLine(Escape(s, false))
  {
    if s != "" {
      EscapeIsOneLine(s[..|s| - 1]);
    }
  }

  lemma {:induction false} DecimalIsOneLine(n: int)
    ensures OneLine(IntText(n))
  {
    hide Text.Decimal;
  }

  lemma {:induction false} JoinedIsOneLine(args: seq<string>, n: nat)
    requires n <= |args|
    ensures OneLine(JoinedArguments(args, n, false))
  {
    hide Escape;
    if n > 0 {
      JoinedIsOneLine(args, n - 1);
      EscapeIsOneLine(args[n - 1]);
    }
  }

  lemma HeaderIsOneLine(ok: bool, code: int, number: int)
    ensures OneLine(HeaderText(ok, code, number))
  {
    hide IntText;
    DecimalIsOneLine(code);
    DecimalIsOneLine(number);
  }

  lemma LineIsMessage(line: string, limit: nat)
    requires OneLine(line) && |line| < limit
    ensures IsMessage(line + "\n", limit)
  {
    assert (line + "\n")[..|line|] == line;
  }

  /** Any argument list within the limit arrives as sent. */
  lemma RequestArrives(args: seq<string>, limit: nat)
    requires |RequestText(args, false)| <= limit
    ensures IsMessage(RequestText(args, false), limit) && DecodeRequest(RequestText(args, false)) == Some(args)
  {
    hide JoinedArguments;
    JoinedIsOneLine(args, |args|);
    RequestRoundTrip(args);
    hide DecodeRequest;
    assert RequestText(args, false) == ("[" + JoinedArguments(args, |args|, false) + "]") + "\n";
    LineIsMessage("[" + JoinedArguments(args, |args|, false) + "]", limit);
  }

  lemma ResponseIsLine(ok: bool, code: int, number: int, out: string, err: string)
    requires |ResponseText(ok, code, number, out, err)| <= RESPONSE_LIMIT
    ensures IsMessage(ResponseText(ok, code, number, out, err), RESPONSE_LIMIT)
  {
    hide Escape, HeaderText;
    HeaderIsOneLine(ok, code, number);
    EscapeIsOneLine(out);
    EscapeIsOneLine(err);
    var line := HeaderText(ok, code, number) + Escape(out, false) + MIDDLE + Escape(err, false) + "\"}";
    assert ResponseText(ok, code, number, out, err) == line + "\n";
    LineIsMessage(line, RESPONSE_LIMIT);
  }

  /** Every reply is one line within the limit, its only raw newline last, and the client decodes
    * the code and both texts, or the notice when they do not fit. */
  lemma ReplyArrives(read: Reader, ok: bool, code: int, number: int, out: string, err: string)
    requires IsReader(read) && IsInt(code) && IsInt(number)
    ensures var t := WireOutput.Reply(ok, code, number, out, err);
            && IsMessage(t, RESPONSE_LIMIT)
            && DecodeResponse(read, t) == Some(if |ResponseText(ok, code, number, out, err)| <= RESPONSE_LIMIT
                                               then Reply(Some(code), Some(out), Some(err))
                                               else Reply(Some(1), Some(""), Some(TOO_LARGE)))
  {
    hide ResponseText, DecodeResponse, IsMessage, IsReader;
    if |ResponseText(ok, code, number, out, err)| <= RESPONSE_LIMIT {
      ResponseIsLine(ok, code, number, out, err);
      ResponseRoundTrip(read, ok, code, number, out, err);
    } else {
      NoticeFits();
      ResponseIsLine(false, 1, ENOBUFS, "", TOO_LARGE);
      ResponseRoundTrip(read, false, 1, ENOBUFS, "", TOO_LARGE);
    }
  }

  /** The notice, byte for byte. */
  lemma NoticeIs()
    ensures ResponseText(false, 1, ENOBUFS, "", TOO_LARGE)
         == "{\"ok\":false,\"exit_code\":1,\"errno\":105,\"stdout\":\"\",\"stderr\":\""
            + "encoded response exceeds protocol capacity\\n\"}\n"
  {
    hide Escape, Text.Decimal;
    var words := "encoded response exceeds protocol capacity";
    NumbersAre();
    PlainWords(words);
    EscapePlain(words, false);
    EscapeConcat(words, "\n", false);
    OneEscaped();
    assert TOO_LARGE == words + "\n";
    assert Escape(TOO_LARGE, false) == words + "\\n";
    HeaderIs();
    NoticeJoins();
  }

  lemma NoticeJoins()
    ensures "{\"ok\":false,\"exit_code\":1,\"errno\":105,\"stdout\":\"" + "" + MIDDLE
            + ("encoded response exceeds protocol capacity" + "\\n") + "\"}\n"
         == "{\"ok\":false,\"exit_code\":1,\"errno\":105,\"stdout\":\"\",\"stderr\":\""
            + "encoded response exceeds protocol capacity\\n\"}\n"
  {
    assert "{\"ok\":false,\"exit_code\":1,\"errno\":105,\"stdout\":\"" + "" + MIDDLE
        == "{\"ok\":false,\"exit_code\":1,\"errno\":105,\"stdout\":\"\",\"stderr\":\"";
    Regroup("{\"ok\":false,\"exit_code\":1,\"errno\":105,\"stdout\":\"" + "" + MIDDLE,
            "encoded response exceeds protocol capacity" + "\\n", "\"}\n");
    assert "encoded response exceeds protocol capacity" + "\\n" + "\"}\n"
        == "encoded response exceeds protocol capacity\\n\"}\n";
  }

  lemma Regroup(a: string, b: string, c: string)
    ensures a + b + c == a + (b + c)
  {}

  lemma HeaderIs()
    ensures HeaderText(false, 1, ENOBUFS) == "{\"ok\":false,\"exit_code\":1,\"errno\":105,\"stdout\":\""
  {
    NumbersAre();
    hide IntText;
    assert HeaderText(false, 1, ENOBUFS)
        == "{\"ok\":false,\"exit_code\":" + "1" + ",\"errno\":" + "105" + ",\"stdout\":\"";
  }

  lemma NumbersAre()
    ensures IntText(1) == "1" && IntText(ENOBUFS) == "105"
  {
    assert Text.Decimal(1) == "1";
    assert Text.Decimal(10) == Text.Decimal(1) + ['0'];
    assert Text.Decimal(105) == Text.Decimal(10) + ['5'];
  }

  lemma PlainWords(s: string)
    requires forall i :: 0 <= i < |s| ==> s[i] == ' ' || 'a' <= s[i] <= 'z'
    ensures Plain(s, false)
  {}

  lemma OneEscaped()
    ensures Escape("\n", false) == "\\n" && Escape("", false) == ""
  {
    assert "\n"[..0] == "";
  }

  lemma NoticeFits()
    ensures |ResponseText(false, 1, ENOBUFS, "", TOO_LARGE)| <= RESPONSE_LIMIT
  {
    hide Escape, HeaderText;
    HeaderLength(false, 1, ENOBUFS);
    EscapeAtMostTwice("");
    EscapeAtMostTwice(TOO_LARGE);
  }
}

/** Decoding a reply in place, what it promises about the text, and that it undoes the encoder. */
module WireResponse {
  import opened Options
  import opened Text
  import opened JsonGrammar
  import opened JsonCursor
  import opened WireOutput
  import opened WireRequest
  import opened WireNumbers

  /** What has been seen of the three members that matter; the last one of a name counts. */
  datatype Reply = Reply(code: Option<int>, out: Option<string>, err: Option<string>)

  datatype Step = Step(reply: Reply, rest: string)

  /** A member that is not wanted, or has the wrong type. */
  function Skipped(read: Reader, s: string, reply: Reply): Option<Step> {
    var v := ParseValue(read, s);
    if Fits(v, 0) then Some(Step(reply, v.value.rest)) else None
  }

  function StreamMember(read: Reader, s: string, reply: Reply, error: bool): Option<Step> {
    if Blank(s) != "" && Blank(s)[0] == '"' then
      var q := StringToken(s);
      if q.None? then None
      else Some(Step(if error then reply.(err := Some(q.value.text)) else reply.(out := Some(q.value.text)),
          q.value.rest))
    else Skipped(read, s, if error then reply.(err := None) else reply.(out := None))
  }

  function CodeMember(read: Reader, s: string, reply: Reply): Option<Step> {
    var t := Blank(s);
    if t != "" && StartsNumber(t[0]) then
      var bits := NumberAt(read, t);
      if bits.None? || CodeOf(bits.value).None? then None
      else Some(Step(reply.(code := CodeOf(bits.value)), t[NumberRun(t)..]))
    else Skipped(read, s, reply.(code := None))
  }

  /** The value of a member. */
  function MemberStep(read: Reader, key: string, s: string, reply: Reply): (r: Option<Step>)
    ensures r.Some? ==> |r.value.rest| <= |s|
  {
    if key == "stdout" || key == "stderr" then StreamMember(read, s, reply, key == "stderr")
    else if key == "exit_code" then CodeMember(read, s, reply)
    else Skipped(read, s, reply)
  }

  /** Members after the brace or a comma, to the end of the text. */
  function MembersFrom(read: Reader, s: string, reply: Reply): Option<Reply>
    decreases |s|
  {
    var key := KeyPart(true, s);
    if key.None? then None
    else
      var step := MemberStep(read, key.value.text, key.value.rest, reply);
      if step.None? then None
      else
        var close, comma := Consume(step.value.rest, '}'), Consume(step.value.rest, ',');
        if close.Some? then (if Blank(close.value) == "" then Some(step.value.reply) else None)
        else if comma.None? then None
        else MembersFrom(read, comma.value, step.value.reply)
  }

  const NOTHING: Reply := Reply(None, None, None)

  predicate Complete(reply: Option<Reply>) {
    reply.Some? && reply.value.code.Some? && reply.value.out.Some? && reply.value.err.Some?
  }

  /** A whole reply: all three members present at the end. */
  function DecodeResponse(read: Reader, s: string): Option<Reply> {
    var open := Consume(s, '{');
    if open.None? || Consume(open.value, '}').Some? then None
    else
      var r := MembersFrom(read, open.value, NOTHING);
      if Complete(r) then r else None
  }

  // ---- the decoder -----------------------------------------------------------------------

  /** The decoder's variables: flags, the code and two views into the buffer. */
  datatype Fields = Fields(code: Option<int>, out: Option<View>, err: Option<View>)

  ghost predicate Shows(bytes: string, f: Fields, reply: Reply) {
    && f.code == reply.code
    && ShowsText(bytes, f.out, reply.out) && ShowsText(bytes, f.err, reply.err)
  }

  ghost predicate ShowsText(bytes: string, view: Option<View>, text: Option<string>) {
    && (view.Some? <==> text.Some?)
    && (view.Some? ==> IsText(bytes, view.value, text.value))
  }

  lemma ShowsLater(a: string, b: string, f: Fields, reply: Reply)
    requires Shows(a, f, reply) && a <= b
    ensures Shows(b, f, reply)
  {
    assert forall view: View :: view.start + view.size <= |a| ==>
        a[view.start..view.start + view.size] == b[view.start..view.start + view.size];
  }

  method ReadResponse(c: Cursor) returns (ok: bool, code: int, out: View, err: View)
    requires c.Valid() && c.decode
    modifies c, c.bytes
    ensures c.Valid()
    ensures ok <==> DecodeResponse(c.read, old(c.Unread())).Some?
    ensures ok ==> var r := DecodeResponse(c.read, old(c.Unread())).value;
              r.code == Some(code) && IsText(c.bytes[..], out, r.out.value) && IsText(c.bytes[..], err, r.err.value)
  {
    hide MembersFrom, Shows, Blank, IsText;
    code, out, err := 0, View(0, 0), View(0, 0);
    ok := c.ConsumeChar('{');
    if !ok {
      return;
    }
    ghost var s := c.Unread();
    MembersBlank(c.read, s, NOTHING);
    var close := c.ConsumeChar('}');
    if close {
      return false, code, out, err;
    }
    var fields;
    ok, fields := ReadMembers(c);
    if ok {
      ShowsEach(c.bytes[..], fields, MembersFrom(c.read, s, NOTHING).value);
      ok := fields.code.Some? && fields.out.Some? && fields.err.Some?;
      if ok {
        code, out, err := fields.code.value, fields.out.value, fields.err.value;
      }
    }
  }

  ghost predicate ShowsComplete(bytes: string, f: Fields, reply: Reply) {
    && (f.code.Some? && f.out.Some? && f.err.Some? <==> Complete(Some(reply)))
    && f.code == reply.code
    && (f.out.Some? && reply.out.Some? ==> IsText(bytes, f.out.value, reply.out.value))
    && (f.err.Some? && reply.err.Some? ==> IsText(bytes, f.err.value, reply.err.value))
  }

  lemma ShowsEach(bytes: string, f: Fields, reply: Reply)
    requires Shows(bytes, f, reply)
    ensures ShowsComplete(bytes, f, reply)
  {
    hide IsText;
  }

  lemma MembersBlank(read: Reader, s: string, reply: Reply)
    ensures MembersFrom(read, Blank(s), reply) == MembersFrom(read, s, reply)
  {
    hide Blank, StringBody, MemberStep;
    ConsumeBlank(s, '"');
  }

  method ReadMembers(c: Cursor) returns (ok: bool, fields: Fields)
    requires c.Valid() && c.decode
    modifies c, c.bytes
    ensures c.Valid()
    ensures ok <==> MembersFrom(c.read, old(c.Unread()), NOTHING).Some?
    ensures ok ==> Shows(c.bytes[..], fields, MembersFrom(c.read, old(c.Unread()), NOTHING).value)
  {
    hide KeyPart, Consume, MembersFrom, MemberStep, Blank, Same, Shows;
    ghost var whole := MembersFrom(c.read, c.Unread(), NOTHING);
    ghost var reply := NOTHING;
    fields := Fields(None, None, None);
    NothingShown(c.bytes[..c.position]);
    while true
      invariant c.Valid() && whole == MembersFrom(c.read, c.Unread(), reply)
      invariant Shows(c.bytes[..c.position], fields, reply)
      decreases c.bytes.Length - c.position
    {
      ghost var s := c.Unread();
      MembersStep(c.read, s, reply);
      ok, fields := ReadMember(c, fields, reply);
      if !ok {
        return;
      }
      ghost var key := KeyPart(true, s).value;
      ghost var step := MemberStep(c.read, key.text, key.rest, reply).value;
      reply := step.reply;
      ConsumeBlank(step.rest, ',');
      ghost var bytes1, p1 := c.bytes[..], c.position;
      var close := c.ConsumeChar('}');
      ShowsLater(bytes1[..p1], c.bytes[..], fields, reply);
      if close {
        ok := c.End();
        return;
      }
      ok := c.ConsumeChar(',');
      if !ok {
        return;
      }
      ShowsLater(bytes1[..p1], c.bytes[..c.position], fields, reply);
    }
  }

  lemma NothingShown(bytes: string)
    ensures Shows(bytes, Fields(None, None, None), NOTHING)
  {}

  lemma MembersStep(read: Reader, s: string, reply: Reply)
    ensures MembersFrom(read, s, reply)
         == var key := KeyPart(true, s);
            if key.None? then None
            else
              var step := MemberStep(read, key.value.text, key.value.rest, reply);
              if step.None? then None
              else
                var close, comma := Consume(step.value.rest, '}'), Consume(step.value.rest, ',');
                if close.Some? then (if Blank(close.value) == "" then Some(step.value.reply) else None)
                else if comma.None? then None
                else MembersFrom(read, comma.value, step.value.reply)
  {}

  /** One member: its key decides what its value may be. */
  method ReadMember(c: Cursor, fields: Fields, ghost reply: Reply) returns (ok: bool, updated: Fields)
    requires c.Valid() && c.decode && Shows(c.bytes[..c.position], fields, reply)
    modifies c, c.bytes
    ensures c.Valid() && c.position >= old(c.position)
    ensures var key := KeyPart(true, old(c.Unread()));
            ok <==> key.Some? && MemberStep(c.read, key.value.text, key.value.rest, reply).Some?
    ensures ok ==> var key := KeyPart(true, old(c.Unread())).value;
              var step := MemberStep(c.read, key.text, key.rest, reply).value;
              c.Unread() == step.rest && c.position > old(c.position)
                  && Shows(c.bytes[..c.position], updated, step.reply)
  {
    hide StringToken, Consume, StreamMember, CodeMember, Skipped, Same, Shows;
    ghost var bytes0, p0, s := c.bytes[..], c.position, c.Unread();
    updated := fields;
    var view;
    ok, view := c.ReadKey(true);
    if !ok {
      return;
    }
    KeyIsSomething(s);
    PrefixStays(bytes0, c.bytes[..], p0, c.position);
    ShowsLater(bytes0[..p0], c.bytes[..c.position], fields, reply);
    assert c.bytes[..c.position][view.start..view.start + view.size] == c.bytes[view.start..view.start + view.size];
    var key := c.bytes[view.start..view.start + view.size];
    assert key == KeyPart(true, s).value.text;
    if key == "stdout" || key == "stderr" {
      ok, updated := ReadStream(c, fields, reply, key == "stderr");
    } else if key == "exit_code" {
      ok, updated := ReadCode(c, fields, reply);
    } else {
      ok := ReadOther(c, fields, reply);
    }
  }

  lemma KeyIsSomething(s: string)
    requires KeyPart(true, s).Some?
    ensures |KeyPart(true, s).value.rest| < |s|
  {}

  method ReadOther(c: Cursor, fields: Fields, ghost reply: Reply) returns (ok: bool)
    requires c.Valid() && c.decode && Shows(c.bytes[..c.position], fields, reply)
    modifies c, c.bytes
    ensures c.Valid() && c.position >= old(c.position)
    ensures ok <==> Skipped(c.read, old(c.Unread()), reply).Some?
    ensures ok ==>
            Skipped(c.read, old(c.Unread()), reply) == Some(Step(reply, c.Unread()))
                && Shows(c.bytes[..c.position], fields, reply)
  {
    hide ParseValue, Same, Shows;
    ghost var bytes0, p0 := c.bytes[..], c.position;
    ok := c.Skip(0);
    PrefixStays(bytes0, c.bytes[..], p0, c.position);
    ShowsLater(bytes0[..p0], c.bytes[..c.position], fields, reply);
  }

  method ReadStream(c: Cursor, fields: Fields, ghost reply: Reply, error: bool) returns (ok: bool, updated: Fields)
    requires c.Valid() && c.decode && Shows(c.bytes[..c.position], fields, reply)
    modifies c, c.bytes
    ensures c.Valid() && c.position >= old(c.position)
    ensures ok <==> StreamMember(c.read, old(c.Unread()), reply, error).Some?
    ensures ok ==> var step := StreamMember(c.read, old(c.Unread()), reply, error).value;
              c.Unread() == step.rest && Shows(c.bytes[..c.position], updated, step.reply)
  {
    hide StringToken, Skipped, ParseValue, Same, Shows, IsText, Blank;
    ghost var bytes0, p0, s := c.bytes[..], c.position, c.Unread();
    BlankFirst(c.read, s);
    SkippedBlank(c.read, s, if error then reply.(err := None) else reply.(out := None));
    var next := c.Peek();
    SameItself(bytes0, p0, c.position);
    PrefixStays(bytes0, bytes0, p0, c.position);
    ShowsLater(bytes0[..p0], c.bytes[..c.position], fields, reply);
    ghost var p1 := c.position;
    updated := fields;
    if next == '"' && c.position < c.bytes.Length {
      var view;
      ok, view := c.ReadString();
      if ok {
        ghost var text := StringToken(s).value.text;
        PrefixStays(bytes0, c.bytes[..], p1, c.position);
        ShowsLater(bytes0[..p1], c.bytes[..c.position], fields, reply);
        ViewInPrefix(c.bytes[..], view, c.position, c.position, text);
        updated := if error then fields.(err := Some(view)) else fields.(out := Some(view));
        ShowsStream(c.bytes[..c.position], fields, reply, error, Some(view), Some(text));
      }
    } else {
      updated := if error then fields.(err := None) else fields.(out := None);
      ShowsStream(c.bytes[..c.position], fields, reply, error, None, None);
      ok := ReadOther(c, updated, if error then reply.(err := None) else reply.(out := None));
    }
  }

  lemma ShowsStream(bytes: string, f: Fields, reply: Reply, error: bool, view: Option<View>, text: Option<string>)
    requires Shows(bytes, f, reply) && ShowsText(bytes, view, text)
    ensures Shows(bytes, if error then f.(err := view) else f.(out := view),
            if error then reply.(err := text) else reply.(out := text))
  {
    hide IsText;
  }

  lemma SkippedBlank(read: Reader, s: string, reply: Reply)
    ensures Skipped(read, Blank(s), reply) == Skipped(read, s, reply)
  {
    hide ParseToken, Blank;
    BlankTwice(s);
  }

  method ReadCode(c: Cursor, fields: Fields, ghost reply: Reply) returns (ok: bool, updated: Fields)
    requires c.Valid() && c.decode && Shows(c.bytes[..c.position], fields, reply)
    modifies c, c.bytes
    ensures c.Valid() && c.position >= old(c.position)
    ensures ok <==> CodeMember(c.read, old(c.Unread()), reply).Some?
    ensures ok ==> var step := CodeMember(c.read, old(c.Unread()), reply).value;
              c.Unread() == step.rest && Shows(c.bytes[..c.position], updated, step.reply)
  {
    hide NumberRun, NumberAt, CodeOf, Skipped, Same, Shows, Blank;
    ghost var bytes0, p0, s := c.bytes[..], c.position, c.Unread();
    SkippedBlank(c.read, s, reply.(code := None));
    BlankTwice(s);
    var next := c.Peek();
    SameItself(bytes0, p0, c.position);
    PrefixStays(bytes0, bytes0, p0, c.position);
    ShowsLater(bytes0[..p0], c.bytes[..c.position], fields, reply);
    updated := fields;
    if StartsNumber(next) {
      var bits;
      ghost var p1 := c.position;
      ok, bits := c.ReadNumber();
      if ok {
        var code := CodeOf(bits);
        ok := code.Some?;
        SameItself(bytes0, p1, c.position);
        PrefixStays(bytes0, bytes0, p1, c.position);
        ShowsLater(bytes0[..p1], c.bytes[..c.position], fields, reply);
        updated := fields.(code := code);
        ShowsCode(c.bytes[..c.position], fields, reply, code);
      }
    } else {
      updated := fields.(code := None);
      ShowsCode(c.bytes[..c.position], fields, reply, None);
      ok := ReadOther(c, updated, reply.(code := None));
    }
  }

  lemma ShowsCode(bytes: string, f: Fields, reply: Reply, code: Option<int>)
    requires Shows(bytes, f, reply)
    ensures Shows(bytes, f.(code := code), reply.(code := code))
  {}
}

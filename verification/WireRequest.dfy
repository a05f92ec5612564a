/** Decoding a request in place, and that it undoes the encoder. */
module WireRequest {
  import opened Options
  import opened Text
  import opened JsonGrammar
  import opened JsonCursor
  import opened Escaping
  import opened WireOutput

  /** Arguments after the bracket or a comma. */
  function ArgumentsFrom(s: string, before: seq<string>): Option<seq<string>>
    decreases |s|
  {
    var q := StringToken(s);
    if q.None? then None
    else
      var args := before + [q.value.text];
      var close, comma := Consume(q.value.rest, ']'), Consume(q.value.rest, ',');
      if close.Some? then (if Blank(close.value) == "" then Some(args) else None)
      else if comma.None? then None
      else ArgumentsFrom(comma.value, args)
  }

  /** A whole request. */
  function DecodeRequest(s: string): Option<seq<string>> {
    var open := Consume(s, '[');
    if open.None? then None
    else
      var close := Consume(open.value, ']');
      if close.Some? then (if Blank(close.value) == "" then Some([]) else None) else ArgumentsFrom(open.value, [])
  }

  // ---- the decoder -----------------------------------------------------------------------

  /** Prepared storage for arguments. */
  class ArgumentStorage {
    const data: array<View>
    var size: nat

    ghost predicate Valid()
      reads this
    {
      size <= data.Length
    }

    constructor (capacity: nat)
      ensures Valid() && size == 0 && data.Length == (if capacity > 0 then capacity else 1) && fresh(data)
    {
      data := new View[if capacity > 0 then capacity else 1](_ => View(0, 0));
      size := 0;
    }

    method Append(view: View) returns (ok: bool)
      requires Valid()
      modifies this, data
      ensures Valid() && (ok <==> old(size) < data.Length)
      ensures data[..size] == old(data[..size]) + (if ok then [view] else [])
    {
      if size == data.Length {
        return false;
      }
      data[size] := view;
      size := size + 1;
      return true;
    }
  }

  /** Each view is its argument, terminated and before the unread text. */
  ghost predicate Terminated(bytes: string, views: seq<View>, args: seq<string>) {
    |views| == |args|
    && forall k :: 0 <= k < |views| ==>
         IsText(bytes, views[k], args[k]) && views[k].start + views[k].size < |bytes|
             && bytes[views[k].start + views[k].size] == '\0'
  }

  lemma TerminatedMore(a: string, b: string, views: seq<View>, args: seq<string>)
    requires Terminated(a, views, args) && a <= b
    ensures Terminated(b, views, args)
  {
    forall k | 0 <= k < |views|
      ensures IsText(b, views[k], args[k])
    {
      assert a[views[k].start..views[k].start + views[k].size] == b[views[k].start..views[k].start + views[k].size];
    }
  }

  lemma TerminatedLast(bytes: string, views: seq<View>, args: seq<string>, view: View, arg: string)
    requires Terminated(bytes, views, args)
    requires IsText(bytes, view, arg) && view.start + view.size < |bytes| && bytes[view.start + view.size] == '\0'
    ensures Terminated(bytes, views + [view], args + [arg])
  {}

  /** Decode a request. A third of the bytes and one more slots hold any request's arguments. */
  method ReadRequest(c: Cursor, storage: ArgumentStorage) returns (ok: bool)
    requires c.Valid() && c.decode && storage.Valid() && storage.data.Length >= c.bytes.Length / 3 + 1
    modifies c, c.bytes, storage, storage.data
    ensures c.Valid() && storage.Valid()
    ensures ok <==> DecodeRequest(old(c.Unread())).Some?
    ensures ok ==> Terminated(c.bytes[..], storage.data[..storage.size], DecodeRequest(old(c.Unread())).value)
  {
    hide StringBody, ArgumentsFrom, Terminated, Blank, Same;
    ghost var whole := DecodeRequest(c.Unread());
    storage.size := 0;
    ok := c.ConsumeChar('[');
    if !ok {
      return;
    }
    ghost var s := c.Unread();
    ConsumeBlank(s, ']');
    var close := c.ConsumeChar(']');
    if close {
      ok := c.End();
      NoneTerminated(c.bytes[..], storage.data[..storage.size]);
      return;
    }
    ArgumentsBlank(s, []);
    ok := ReadArguments(c, storage);
  }

  lemma NoneTerminated(bytes: string, views: seq<View>)
    requires views == []
    ensures Terminated(bytes, views, [])
  {}

  lemma ArgumentsBlank(s: string, before: seq<string>)
    ensures ArgumentsFrom(Blank(s), before) == ArgumentsFrom(s, before)
  {
    hide Blank, StringBody;
    ConsumeBlank(s, '"');
  }

  method ReadArguments(c: Cursor, storage: ArgumentStorage) returns (ok: bool)
    requires c.Valid() && c.decode && storage.Valid() && storage.size == 0 && 1 <= c.position
    requires storage.data.Length >= c.bytes.Length / 3 + 1
    modifies c, c.bytes, storage, storage.data
    ensures c.Valid() && storage.Valid()
    ensures ok <==> ArgumentsFrom(old(c.Unread()), []).Some?
    ensures ok ==> Terminated(c.bytes[..], storage.data[..storage.size], ArgumentsFrom(old(c.Unread()), []).value)
  {
    hide StringToken, Consume, ArgumentsFrom, Terminated, Blank, Same;
    ghost var whole := ArgumentsFrom(c.Unread(), []);
    ghost var args: seq<string> := [];
    NoneTerminated(c.bytes[..c.position], storage.data[..storage.size]);
    while true
      invariant c.Valid() && storage.Valid() && storage.size == |args| && 3 * |args| + 1 <= c.position
      invariant whole == ArgumentsFrom(c.Unread(), args)
      invariant Terminated(c.bytes[..c.position], storage.data[..storage.size], args)
      decreases c.bytes.Length - c.position
    {
      ghost var s := c.Unread();
      ArgumentStep(s, args);
      ok := ReadArgument(c, storage, args);
      if !ok {
        return;
      }
      ghost var q := StringToken(s).value;
      args := args + [q.text];
      ConsumeBlank(q.rest, ',');
      ghost var bytes1, p1 := c.bytes[..], c.position;
      var close := c.ConsumeChar(']');
      TerminatedMore(bytes1[..p1], c.bytes[..], storage.data[..storage.size], args);
      if close {
        ok := c.End();
        return;
      }
      ok := c.ConsumeChar(',');
      if !ok {
        return;
      }
      TerminatedMore(bytes1[..p1], c.bytes[..c.position], storage.data[..storage.size], args);
    }
  }

  lemma ArgumentStep(s: string, before: seq<string>)
    ensures ArgumentsFrom(s, before)
         == var q := StringToken(s);
            if q.None? then None
            else
              var args := before + [q.value.text];
              var close, comma := Consume(q.value.rest, ']'), Consume(q.value.rest, ',');
              if close.Some? then (if Blank(close.value) == "" then Some(args) else None)
              else if comma.None? then None
              else ArgumentsFrom(comma.value, args)
  {}

  method ReadArgument(c: Cursor, storage: ArgumentStorage, ghost args: seq<string>) returns (ok: bool)
    requires c.Valid() && c.decode && storage.Valid() && storage.size == |args|
    requires 3 * |args| + 1 <= c.position && storage.data.Length >= c.bytes.Length / 3 + 1
    requires Terminated(c.bytes[..c.position], storage.data[..storage.size], args)
    modifies c, c.bytes, storage, storage.data
    ensures c.Valid() && storage.Valid()
    ensures ok <==> StringToken(old(c.Unread())).Some?
    ensures ok ==> var q := StringToken(old(c.Unread())).value;
              c.Unread() == q.rest && c.position >= old(c.position) + 2 && storage.size == |args| + 1
              && Terminated(c.bytes[..c.position], storage.data[..storage.size], args + [q.text])
  {
    hide StringToken, Terminated, Same;
    ghost var bytes0, p0, s := c.bytes[..], c.position, c.Unread();
    var view;
    ok, view := c.ReadString();
    if ok {
      ghost var text := StringToken(s).value.text;
      TokenLength(s);
      PrefixStays(bytes0, c.bytes[..], p0, c.position);
      TerminatedMore(bytes0[..p0], c.bytes[..c.position], storage.data[..storage.size], args);
      ViewInPrefix(c.bytes[..], view, c.position, c.position, text);
      TerminatedLast(c.bytes[..c.position], storage.data[..storage.size], args, view, text);
      ok := storage.Append(view);
    }
  }

  lemma TokenLength(s: string)
    requires StringToken(s).Some?
    ensures |StringToken(s).value.rest| + 2 <= |s|
  {
    hide StringBody;
  }

  lemma PrefixStays(a: string, b: string, from: nat, to: nat)
    requires Same(a, b, from, to)
    ensures a[..from] <= b[..to]
  {
    assert b[..to][..from] == b[..from];
  }

  // ---- the encoder undone ----------------------------------------------------------------

  /** What was encoded decodes to the same byte strings, in order. */
  lemma RequestRoundTrip(args: seq<string>)
    ensures DecodeRequest(RequestText(args, false)) == Some(args)
  {
    hide Escape, ArgumentsFrom, JoinedArguments;
    var text, body := RequestText(args, false), JoinedArguments(args, |args|, false) + "]\n";
    assert text == "[" + body && text[1..] == body;
    BlankStops(text);
    if args == [] {
      NothingJoined(args, false);
      BlankStops(body);
      assert body == "]\n" && body[1..] == "\n";
      OnlyNewline();
    } else {
      FirstQuote(args, |args|);
      BlankStops(body);
      JoinedDecodes(args, |args|, "]\n");
      BlankStops("]\n");
      assert "]\n"[1..] == "\n" && args[..|args|] == args;
      OnlyNewline();
    }
  }

  lemma OnlyNewline()
    ensures Blank("\n") == ""
  {
    assert Blank("") == "";
    BlankGoesOn("\n");
  }

  lemma {:induction false} FirstQuote(args: seq<string>, n: nat)
    requires 0 < n <= |args|
    ensures JoinedArguments(args, n, false) != "" && JoinedArguments(args, n, false)[0] == '"'
  {
    hide Escape;
    if n > 1 {
      FirstQuote(args, n - 1);
    }
  }

  /** After n arguments the decoder stands before what follows them. */
  function AfterArguments(args: seq<string>, rest: string): Option<seq<string>> {
    var close, comma := Consume(rest, ']'), Consume(rest, ',');
    if close.Some? then (if Blank(close.value) == "" then Some(args) else None)
    else if comma.None? then None
    else ArgumentsFrom(comma.value, args)
  }

  lemma {:induction false} JoinedDecodes(args: seq<string>, n: nat, rest: string)
    requires 0 < n <= |args|
    ensures ArgumentsFrom(JoinedArguments(args, n, false) + rest, []) == AfterArguments(args[..n], rest)
  {
    hide Escape, ArgumentsFrom, StringBody, Consume, Blank, Quote;
    var arg := args[n - 1];
    QuotedToken(arg, rest);
    ArgumentStep(Quote(arg, false) + rest, args[..n - 1]);
    assert args[..n - 1] + [arg] == args[..n];
    if n == 1 {
      assert JoinedArguments(args, n, false) + rest == Quote(arg, false) + rest by { NothingJoined(args, false); }
      assert args[..0] == [];
    } else {
      var tail := "," + (Quote(arg, false) + rest);
      assert JoinedArguments(args, n, false) + rest == JoinedArguments(args, n - 1, false) + tail;
      JoinedDecodes(args, n - 1, tail);
      CommaNext(Quote(arg, false) + rest);
    }
  }

  lemma CommaNext(s: string)
    ensures Consume("," + s, ']').None? && Consume("," + s, ',') == Some(s)
  {
    BlankStops("," + s);
    assert ("," + s)[1..] == s;
  }

  lemma QuotedToken(arg: string, rest: string)
    ensures StringToken(Quote(arg, false) + rest) == Some(Quoted(arg, rest))
  {
    hide Escape, StringBody;
    var s := Quote(arg, false) + rest;
    BlankStops(s);
    assert s[1..] == Escape(arg, false) + "\"" + rest;
    EscapeRoundTrip(arg, false, rest);
  }

  // ---- agreement with the reference parser -----------------------------------------------

  function Strings(args: seq<string>): (r: seq<Json>)
    ensures |r| == |args|
  {
    seq(|args|, i requires 0 <= i < |args| => String(args[i]))
  }

  predicate AllStrings(v: Json) { v.Array? && forall k :: 0 <= k < |v.items| ==> v.items[k].String? }

  /** A request is accepted exactly when the reference parser sees an array of nothing but strings. */
  lemma {:induction false} RequestIsStringArray(read: Reader, s: string)
    ensures DecodeRequest(s).Some? <==> ParseText(read, s).Some? && AllStrings(ParseText(read, s).value.value)
    ensures DecodeRequest(s).Some? ==> ParseText(read, s).value.value == Array(Strings(DecodeRequest(s).value))
  {
    hide ArgumentsFrom, ParseScalar, ParseItems, ParseMembers, ParseValue, Blank;
    ValueForms(read, s);
    var open := Consume(s, '[');
    if open.Some? {
      var close := Consume(open.value, ']');
      if close.None? {
        RestIsStrings(read, open.value, [], 0);
      } else {
        assert Strings([]) == [];
      }
    }
  }

  lemma {:induction false} RestIsStrings(read: Reader, s: string, args: seq<string>, h: nat)
    ensures var p, r := ParseItems(read, s, Strings(args), h), ArgumentsFrom(s, args);
            && (r.Some? <==> p.Some? && Blank(p.value.rest) == "" && AllStrings(p.value.value))
            && (r.Some? ==> p.value.value == Array(Strings(r.value)))
    decreases |s|
  {
    hide StringToken, ParseValue, Blank;
    StringValue(read, s);
    ArgumentStep(s, args);
    var q, v := StringToken(s), ParseValue(read, s);
    if v.Some? {
      var items, comma := Strings(args) + [v.value.value], Consume(v.value.rest, ',');
      if q.Some? {
        assert items == Strings(args + [q.value.text]);
        if Consume(v.value.rest, ']').None? && comma.Some? {
          RestIsStrings(read, comma.value, args + [q.value.text], Max(h, v.value.height));
        }
      } else {
        assert !items[|args|].String?;
        if Consume(v.value.rest, ']').None? && comma.Some? {
          ItemsExtend(read, comma.value, items, Max(h, v.value.height));
        }
      }
    }
  }

  /** Later elements are added behind the earlier ones. */
  lemma {:induction false} ItemsExtend(read: Reader, s: string, before: seq<Json>, h: nat)
    ensures var p := ParseItems(read, s, before, h); p.Some? ==> p.value.value.Array? && before <= p.value.value.items
    decreases |s|
  {
    hide ParseValue, Blank;
    var v := ParseValue(read, s);
    if v.Some? && Consume(v.value.rest, ']').None? && Consume(v.value.rest, ',').Some? {
      ItemsExtend(read, Consume(v.value.rest, ',').value, before + [v.value.value], Max(h, v.value.height));
    }
  }

  lemma StringValue(read: Reader, s: string)
    ensures StringToken(s).Some? <==> ParseValue(read, s).Some? && ParseValue(read, s).value.value.String?
    ensures StringToken(s).Some? ==>
              ParseValue(read, s) == Some(Parsed(String(StringToken(s).value.text), StringToken(s).value.rest, 1))
  {
    hide Blank, StringBody, NumberAt, ParseItems;
    var t := Blank(s);
    if t != "" && t[0] == '{' {
      ObjectForm(read, t[1..]);
    } else if t != "" && t[0] == '[' {
      ArrayForm(read, t[1..]);
    }
  }

  lemma ArrayForm(read: Reader, s: string)
    ensures ParseContainer(read, false, s).Some? ==> ParseContainer(read, false, s).value.value.Array?
  {
    ItemsExtend(read, s, [], 0);
  }

  /** Only a bracket starts an array. */
  lemma ValueForms(read: Reader, s: string)
    ensures Consume(s, '[').Some? ==> ParseValue(read, s) == ParseContainer(read, false, Consume(s, '[').value)
    ensures Consume(s, '[').None? && ParseValue(read, s).Some? ==> !ParseValue(read, s).value.value.Array?
  {
    hide Blank, ParseItems, NumberAt, StringBody;
    var t := Blank(s);
    if t != "" && t[0] == '{' {
      ObjectForm(read, t[1..]);
    }
  }

  lemma ObjectForm(read: Reader, s: string)
    ensures ParseContainer(read, true, s).Some? ==> ParseContainer(read, true, s).value.value.Object?
  {
    hide ParseMembers;
    if Consume(s, '}').None? && ParseMembers(read, s, [], 0).Some? {
      MembersForm(read, s, [], 0);
    }
  }

  lemma {:induction false} MembersForm(read: Reader, s: string, before: seq<Member<Json>>, h: nat)
    requires ParseMembers(read, s, before, h).Some?
    ensures ParseMembers(read, s, before, h).value.value.Object?
    decreases |s|
  {
    hide Blank, ParseValue, Put, StringToken;
    var colon := Consume(StringToken(s).value.rest, ':').value;
    var v := ParseValue(read, colon).value;
    if Consume(v.rest, '}').None? {
      MembersForm(read, Consume(v.rest, ',').value, Put(before, StringToken(s).value.text, v.value), Max(h, v.height));
    }
  }
}

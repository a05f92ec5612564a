/** The daemon's socket writer: batching, escaping straight to the wire, and reply limits. */
module WireOutput {
  import opened Powers
  import opened Text
  import opened Escaping

  // ---- the socket ------------------------------------------------------------------------

  /** What one send call does: it may take only part of what it is given. */
  datatype Outcome = Interrupted | Failed | Accepted(count: nat)

  /** The peer keeps accepting. */
  predicate Reliable(script: seq<Outcome>) {
    forall i :: 0 <= i < |script| ==> script[i] == Interrupted || (script[i].Accepted? && script[i].count > 0)
  }

  /** A transport buffer. What the peer has got is `sent`; `script` is what the socket will do. */
  class SocketOutput {
    const bytes: array<char>
    var used: nat
    var sent: string
    var script: seq<Outcome>

    ghost predicate Valid()
      reads this
    {
      used <= bytes.Length
    }

    /** All that was written, sent or not. */
    ghost function Stream(): string
      reads this, bytes
      requires Valid()
    {
      sent + bytes[..used]
    }

    constructor (buffer: array<char>, script: seq<Outcome>)
      ensures Valid() && bytes == buffer && Stream() == "" && sent == "" && this.script == script
    {
      bytes, used, sent, this.script := buffer, 0, "", script;
    }

    /** One send of a piece: how much was taken, 0 for a failure. */
    method Send(piece: string) returns (again: bool, count: nat)
      requires piece != ""
      modifies this`sent, this`script
      ensures count <= |piece| && sent == old(sent) + piece[..count]
      ensures again ==> count == 0 && |script| < |old(script)|
      ensures |script| <= |old(script)| && (Reliable(old(script)) ==> Reliable(script) && (again || count > 0))
    {
      again, count := false, |piece|;
      if script != [] {
        var first := script[0];
        script := script[1..];
        match first
        case Interrupted => again, count := true, 0;
        case Failed => count := 0;
        case Accepted(n) => count := if n < |piece| then n else |piece|;
      }
      sent := sent + piece[..count];
    }

    method Flush() returns (ok: bool)
      requires Valid()
      modifies this
      ensures Valid() && bytes[..] == old(bytes[..])
      ensures ok ==> used == 0 && sent == old(Stream())
      ensures old(sent) <= sent <= old(Stream())
      ensures Reliable(old(script)) ==> ok && Reliable(script)
    {
      hide Reliable;
      var offset := 0;
      ghost var all, before := bytes[..used], sent;
      while offset != used
        invariant 0 <= offset <= used == old(used) && sent == before + all[..offset]
        invariant Reliable(old(script)) ==> Reliable(script)
        decreases used - offset, |script|
      {
        var again, count := Send(bytes[offset..used]);
        assert all[..offset] + bytes[offset..used][..count] == all[..offset + count];
        if again {
          continue;
        }
        if count == 0 {
          return false;
        }
        offset := offset + count;
      }
      used := 0;
      return true;
    }

    /** Buffer, flushing whenever the buffer is full. */
    method Append(value: string) returns (ok: bool)
      requires Valid()
      modifies this, bytes
      ensures Valid()
      ensures ok ==> Stream() == old(Stream()) + value
      ensures sent <= old(Stream()) + value
      ensures bytes.Length == 0 ==> !ok
      ensures Reliable(old(script)) && bytes.Length > 0 ==> ok && Reliable(script)
    {
      hide Reliable;
      if bytes.Length == 0 {
        return false;
      }
      ghost var start := Stream();
      var done := 0;
      while done < |value|
        invariant 0 <= done <= |value| && Valid() && Stream() == start + value[..done]
        invariant Reliable(old(script)) ==> Reliable(script)
      {
        if used == bytes.Length {
          ghost var now := Stream();
          ok := Flush();
          assert now == start + value[..done] && now <= start + value;
          if !ok {
            return;
          }
        }
        var available := bytes.Length - used;
        var count := if |value| - done < available then |value| - done else available;
        Copy(value[done..done + count]);
        assert start + value[..done] + value[done..done + count] == start + value[..done + count];
        done := done + count;
      }
      ok := true;
      assert value[..done] == value;
    }

    method Copy(piece: string)
      requires Valid() && used + |piece| <= bytes.Length
      modifies this`used, bytes
      ensures Valid() && Stream() == old(Stream()) + piece && used == old(used) + |piece|
    {
      var i := 0;
      while i < |piece|
        invariant 0 <= i <= |piece| && bytes[..used + i] == old(bytes[..used]) + piece[..i] && used == old(used)
        modifies bytes
      {
        bytes[used + i] := piece[i];
        i := i + 1;
      }
      used := used + |piece|;
    }

    /** Escape with only the short escapes, in runs. */
    method AppendEscaped(value: string) returns (ok: bool)
      requires Valid()
      modifies this, bytes
      ensures Valid()
      ensures ok ==> Stream() == old(Stream()) + Escape(value, false)
      ensures sent <= old(Stream()) + Escape(value, false)
      ensures Reliable(old(script)) && bytes.Length > 0 ==> ok && Reliable(script)
    {
      hide Reliable, EscapeChar, Escape, Plain, ShortEscape;
      ghost var start := Stream();
      var first, i := 0, 0;
      NothingEscaped(value, false);
      while i < |value|
        invariant 0 <= first <= i <= |value| && Valid()
        invariant Stream() == start + Escape(value[..first], false)
        invariant Plain(value[first..i], false)
        invariant Reliable(old(script)) && bytes.Length > 0 ==> Reliable(script)
      {
        var escaped := ShortEscape(value[i], false);
        RunEscapes(value, first, i, false);
        EscapeSplits(value, i + 1);
        if escaped != "" {
          EscapedIs(value[i], false, escaped);
          ok := AppendRun(value[first..i], escaped);
          if !ok {
            return;
          }
          first := i + 1;
          NothingPlain(value, i + 1, false);
        } else {
          PlainMore(value, first, i, false);
        }
        i := i + 1;
      }
      RunEscapes(value, first, i, false);
      assert value[..i] == value;
      ok := Append(value[first..i]);
    }

    method AppendRun(run: string, escaped: string) returns (ok: bool)
      requires Valid()
      modifies this, bytes
      ensures Valid()
      ensures ok ==> Stream() == old(Stream()) + (run + escaped)
      ensures sent <= old(Stream()) + (run + escaped)
      ensures Reliable(old(script)) && bytes.Length > 0 ==> ok && Reliable(script)
    {
      hide Reliable;
      ok := Append(run);
      if ok {
        ok := Append(escaped);
      }
    }
  }

  /** The escape of a prefix is a prefix of the escape. */
  lemma EscapeSplits(value: string, i: nat)
    requires i <= |value|
    ensures Escape(value[..i], false) <= Escape(value, false)
  {
    assert value == value[..i] + value[i..];
    EscapeConcat(value[..i], value[i..], false);
  }

  // ---- requests --------------------------------------------------------------------------

  /** The first n arguments, quoted and separated. */
  function JoinedArguments(args: seq<string>, n: nat, legacy: bool): string
    requires n <= |args|
  {
    if n == 0 then ""
    else JoinedArguments(args, n - 1, legacy) + (if n > 1 then (if legacy then "\t" else ",") else "")
         + (if legacy then args[n - 1] else Quote(args[n - 1], false))
  }

  function RequestText(args: seq<string>, legacy: bool): string {
    (if legacy then "" else "[") + JoinedArguments(args, |args|, legacy) + (if legacy then "\n" else "]\n")
  }

  method SendArguments(wire: SocketOutput, args: seq<string>, start: nat, legacy: bool) returns (ok: bool)
    requires wire.Valid() && start <= |args|
    modifies wire, wire.bytes
    ensures wire.Valid()
    ensures ok ==> wire.sent == old(wire.Stream()) + RequestText(args[start..], legacy)
    ensures wire.sent <= old(wire.Stream()) + RequestText(args[start..], legacy)
    ensures Reliable(old(wire.script)) && wire.bytes.Length > 0 ==> ok
  {
    hide Reliable, Escape, JoinedArguments, ArgumentText;
    ghost var before, rest := wire.Stream(), args[start..];
    ghost var text := before + (if legacy then "" else "[");
    RequestStarts(before, rest, legacy);
    if !legacy {
      ok := wire.Append("[");
      if !ok {
        return;
      }
    }
    var i := start;
    NothingJoined(rest, legacy);
    while i < |args|
      invariant start <= i <= |args| && wire.Valid()
      invariant wire.Stream() == text + JoinedArguments(rest, i - start, legacy)
      invariant Reliable(old(wire.script)) && wire.bytes.Length > 0 ==> Reliable(wire.script)
    {
      ghost var n := i - start;
      assert args[i] == rest[n];
      JoinedStep(rest, n, legacy);
      RequestContains(before, rest, n + 1, legacy);
      ghost var now := wire.Stream();
      ok := SendArgument(wire, args[i], i != start, legacy);
      assert now + ArgumentText(rest[n], n > 0, legacy) == text + JoinedArguments(rest, n + 1, legacy);
      if !ok {
        return;
      }
      assert wire.Stream() == text + (JoinedArguments(rest, n, legacy) + ArgumentText(rest[n], n > 0, legacy));
      i := i + 1;
    }
    ghost var all := wire.Stream();
    ok := wire.Append(if legacy then "\n" else "]\n");
    if ok {
      ok := wire.Flush();
      assert all + (if legacy then "\n" else "]\n") == before + RequestText(rest, legacy);
    }
  }

  lemma RequestStarts(before: string, args: seq<string>, legacy: bool)
    ensures before <= before + RequestText(args, legacy)
            && before + (if legacy then "" else "[") <= before + RequestText(args, legacy)
  {
    hide JoinedArguments;
  }

  lemma {:induction false} ArgumentsPrefix(args: seq<string>, n: nat, legacy: bool)
    requires n <= |args|
    ensures JoinedArguments(args, n, legacy) <= JoinedArguments(args, |args|, legacy)
    decreases |args| - n
  {
    hide Escape, JoinedArguments;
    if n < |args| {
      JoinedStep(args, n, legacy);
      ArgumentsPrefix(args, n + 1, legacy);
    }
  }

  lemma RequestContains(before: string, args: seq<string>, n: nat, legacy: bool)
    requires n <= |args|
    ensures before + (if legacy then "" else "[") + JoinedArguments(args, n, legacy)
            <= before + RequestText(args, legacy)
  {
    hide JoinedArguments;
    ArgumentsPrefix(args, n, legacy);
    var start := before + (if legacy then "" else "[");
    assert before + RequestText(args, legacy)
        == start + (JoinedArguments(args, |args|, legacy) + (if legacy then "\n" else "]\n"));
  }

  lemma NothingJoined(args: seq<string>, legacy: bool)
    ensures JoinedArguments(args, 0, legacy) == ""
  {}

  lemma JoinedStep(args: seq<string>, n: nat, legacy: bool)
    requires n < |args|
    ensures JoinedArguments(args, n + 1, legacy)
            == JoinedArguments(args, n, legacy) + ArgumentText(args[n], n > 0, legacy)
  {
    hide Escape;
  }

  function ArgumentText(arg: string, later: bool, legacy: bool): string {
    (if later then (if legacy then "\t" else ",") else "") + (if legacy then arg else Quote(arg, false))
  }

  method SendArgument(wire: SocketOutput, arg: string, later: bool, legacy: bool) returns (ok: bool)
    requires wire.Valid()
    modifies wire, wire.bytes
    ensures wire.Valid()
    ensures ok ==> wire.Stream() == old(wire.Stream()) + ArgumentText(arg, later, legacy)
    ensures wire.sent <= old(wire.Stream()) + ArgumentText(arg, later, legacy)
    ensures Reliable(old(wire.script)) && wire.bytes.Length > 0 ==> ok && Reliable(wire.script)
  {
    hide Reliable, Quote;
    ghost var start, comma := wire.Stream(), if later then (if legacy then "\t" else ",") else "";
    ghost var value := if legacy then arg else Quote(arg, false);
    assert start + ArgumentText(arg, later, legacy) == start + comma + value;
    ok := true;
    if later {
      ok := wire.Append(if legacy then "\t" else ",");
    }
    assert start + comma <= start + comma + value;
    if ok && legacy {
      ok := wire.Append(arg);
    } else if ok {
      ok := SendQuoted(wire, arg);
    }
  }

  method SendQuoted(wire: SocketOutput, arg: string) returns (ok: bool)
    requires wire.Valid()
    modifies wire, wire.bytes
    ensures wire.Valid()
    ensures ok ==> wire.Stream() == old(wire.Stream()) + Quote(arg, false)
    ensures wire.sent <= old(wire.Stream()) + Quote(arg, false)
    ensures Reliable(old(wire.script)) && wire.bytes.Length > 0 ==> ok && Reliable(wire.script)
  {
    hide Reliable, Escape;
    ghost var start, body := wire.Stream(), Escape(arg, false);
    assert start + "\"" + body + "\"" == start + Quote(arg, false);
    ok := wire.Append("\"");
    if ok {
      ok := wire.AppendEscaped(arg);
    }
    if ok {
      ok := wire.Append("\"");
    }
  }

  // ---- replies ---------------------------------------------------------------------------

  const RESPONSE_LIMIT: nat := 1024 * 1024
  const ENOBUFS: int := 105
  const TOO_LARGE: string := "encoded response exceeds protocol capacity\n"

  function IntText(n: int): string {
    (if n < 0 then "-" else "") + Decimal(if n < 0 then -n else n)
  }

  function HeaderText(ok: bool, code: int, number: int): string {
    (if ok then "{\"ok\":true,\"exit_code\":" else "{\"ok\":false,\"exit_code\":")
    + IntText(code) + ",\"errno\":" + IntText(number) + ",\"stdout\":\""
  }

  const MIDDLE: string := "\",\"stderr\":\""

  function ResponseText(ok: bool, code: int, number: int, out: string, err: string): string {
    HeaderText(ok, code, number) + Escape(out, false) + MIDDLE + Escape(err, false) + "\"}\n"
  }

  /** What a client gets: the reply, or the notice that it was too large. */
  function Reply(ok: bool, code: int, number: int, out: string, err: string): string {
    var text := ResponseText(ok, code, number, out, err);
    if |text| <= RESPONSE_LIMIT then text else ResponseText(false, 1, ENOBUFS, "", TOO_LARGE)
  }

  lemma {:induction false} DecimalLength(n: nat, k: nat)
    requires k > 0 && n < Pow(10, k)
    ensures |Decimal(n)| <= k
  {
    if n >= 10 {
      assert k > 1 by {
        assert Pow(10, 1) == 10 * Pow(10, 0);
      }
      DecimalLength(n / 10, k - 1);
    }
  }

  lemma HeaderLength(ok: bool, code: int, number: int)
    requires -0x8000_0000 <= code < 0x8000_0000 && -0x8000_0000 <= number < 0x8000_0000
    ensures |HeaderText(ok, code, number)| <= 66
  {
    assert Pow(10, 5) == 100000;
    PowAdd(10, 5, 5);
    DecimalLength(if code < 0 then -code else code, 10);
    DecimalLength(if number < 0 then -number else number, 10);
  }

  lemma {:induction false} EscapeAtMostTwice(s: string)
    ensures |Escape(s, false)| <= 2 * |s|
  {
    if s != "" {
      EscapeAtMostTwice(s[..|s| - 1]);
    }
  }

  /** Add up escaped sizes until they pass the limit. */
  method Measure(value: string, size: nat) returns (fits: bool, total: nat)
    requires size <= RESPONSE_LIMIT
    ensures fits <==> size + |Escape(value, false)| <= RESPONSE_LIMIT
    ensures fits ==> total == size + |Escape(value, false)|
  {
    total := size;
    var i := 0;
    while i < |value|
      invariant 0 <= i <= |value| && total == size + |Escape(value[..i], false)| && total <= RESPONSE_LIMIT
    {
      assert value[..i + 1][..i] == value[..i];
      EscapeSplits(value, i + 1);
      var c := value[i];
      total := total + (if c == '"' || c == '\\' || c == '\n' || c == '\r' || c == '\t' then 2 else 1);
      if total > RESPONSE_LIMIT {
        return false, total;
      }
      i := i + 1;
    }
    assert value[..i] == value;
    fits := true;
  }

  /** The header, in its 96 bytes of stack. */
  method PrepareHeader(ok: bool, code: int, number: int) returns (header: string)
    requires -0x8000_0000 <= code < 0x8000_0000 && -0x8000_0000 <= number < 0x8000_0000
    ensures header == HeaderText(ok, code, number) && |header| <= 96
  {
    HeaderLength(ok, code, number);
    header := HeaderText(ok, code, number);
  }

  /** A reply that passes the limit is replaced before any byte is published. */
  method SendResponse(bytes: array<char>, script: seq<Outcome>, ok: bool, code: int, number: int, out: string,
          err: string)
    returns (done: bool, wire: SocketOutput)
    requires -0x8000_0000 <= code < 0x8000_0000 && -0x8000_0000 <= number < 0x8000_0000
    modifies bytes
    ensures wire.sent <= Reply(ok, code, number, out, err) && |wire.sent| <= 1048576
    ensures done ==> wire.sent == Reply(ok, code, number, out, err)
    ensures Reliable(script) && bytes.Length > 0 ==> done
  {
    hide Escape, HeaderText, Reliable;
    var header := PrepareHeader(ok, code, number);
    var output, error := out, err;
    var overhead := |header| + |MIDDLE| + 3;
    var budget := RESPONSE_LIMIT - overhead;
    EscapeAtMostTwice(out);
    EscapeAtMostTwice(err);
    ghost var text := ResponseText(ok, code, number, out, err);
    assert |text| == overhead + |Escape(out, false)| + |Escape(err, false)|;
    if |out| > budget / 2 || |err| > budget / 2 - |out| {
      var fits, size := Measure(out, overhead);
      if fits {
        fits, size := Measure(err, size);
      }
      if !fits {
        header := PrepareHeader(false, 1, ENOBUFS);
        output, error := "", TOO_LARGE;
        EscapeAtMostTwice(TOO_LARGE);
        NothingEscaped("", false);
        text := ResponseText(false, 1, ENOBUFS, "", TOO_LARGE);
      }
    }
    assert text == Reply(ok, code, number, out, err);
    wire := new SocketOutput(bytes, script);
    done := Publish(wire, header, output, error);
  }

  method Publish(wire: SocketOutput, header: string, output: string, error: string) returns (done: bool)
    requires wire.Valid() && wire.Stream() == "" && wire.sent == ""
    modifies wire, wire.bytes
    ensures wire.Valid()
    ensures var text := header + Escape(output, false) + MIDDLE + Escape(error, false) + "\"}\n";
            wire.sent <= text && (done ==> wire.sent == text)
    ensures Reliable(old(wire.script)) && wire.bytes.Length > 0 ==> done
  {
    hide Escape, Reliable;
    ghost var first := header + Escape(output, false) + MIDDLE;
    ghost var last := Escape(error, false) + "\"}\n";
    done := PublishOutput(wire, header, output, MIDDLE);
    if !done {
      PrefixOfMore(wire.sent, first, last, first + last);
    } else {
      done := PublishError(wire, error);
    }
    assert first + last == header + Escape(output, false) + MIDDLE + Escape(error, false) + "\"}\n";
  }

  method PublishOutput(wire: SocketOutput, header: string, output: string, middle: string) returns (done: bool)
    requires wire.Valid() && wire.Stream() == ""
    modifies wire, wire.bytes
    ensures wire.Valid()
    ensures var text := header + Escape(output, false) + middle;
            wire.sent <= text && (done ==> wire.Stream() == text)
    ensures Reliable(old(wire.script)) && wire.bytes.Length > 0 ==> done && Reliable(wire.script)
  {
    hide Escape, Reliable;
    ghost var o := Escape(output, false);
    done := wire.Append(header);
    if !done {
      assert header + (o + middle) == header + o + middle;
      PrefixOfMore(wire.sent, header, o + middle, header + o + middle);
      return;
    }
    done := wire.AppendEscaped(output);
    if !done {
      PrefixOfMore(wire.sent, header + o, middle, header + o + middle);
      return;
    }
    done := wire.Append(middle);
  }

  method PublishError(wire: SocketOutput, error: string) returns (done: bool)
    requires wire.Valid()
    modifies wire, wire.bytes
    ensures wire.Valid()
    ensures var text := old(wire.Stream()) + (Escape(error, false) + "\"}\n");
            wire.sent <= text && (done ==> wire.sent == text)
    ensures Reliable(old(wire.script)) && wire.bytes.Length > 0 ==> done
  {
    hide Escape, Reliable;
    ghost var before, e := wire.Stream(), Escape(error, false);
    assert before + e + "\"}\n" == before + (e + "\"}\n");
    done := wire.AppendEscaped(error);
    if !done {
      PrefixOfMore(wire.sent, before + e, "\"}\n", before + e + "\"}\n");
      return;
    }
    done := wire.Append("\"}\n");
    if done {
      done := wire.Flush();
    }
  }

  lemma PrefixOfMore(a: string, b: string, c: string, text: string)
    requires a <= b && text == b + c
    ensures a <= text
  {}
}

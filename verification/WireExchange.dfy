/** A request and its reply from one end of the socket to the other, whatever sends and reads do. */
module WireExchange {
  import opened Options
  import opened JsonGrammar
  import opened JsonCursor
  import opened JsonNumber
  import opened JsonPrefix
  import opened WireInput
  import WireOutput
  import opened WireRequest
  import opened WireNumbers
  import opened WireResponse
  import opened WireRoundTrip

  // ---- messages that were cut off --------------------------------------------------------

  lemma {:induction false} ArgumentsLonger(s: string, more: string, before: seq<string>)
    requires ArgumentsFrom(s, before).Some? && ArgumentsFrom(s + more, before).Some?
    ensures ArgumentsFrom(s, before) == ArgumentsFrom(s + more, before)
    decreases |s|
  {
    hide StringToken, Consume, Blank;
    TokenLonger(s, more);
    var q := StringToken(s).value;
    ConsumeLonger(q.rest, ']', more);
    ConsumeLonger(q.rest, ',', more);
    if Consume(q.rest, ']').None? {
      ConsumeNeeds(q.rest, ',');
      ArgumentsLonger(Consume(q.rest, ',').value, more, before + [q.text]);
    }
  }

  /** A request that was cut off anywhere is refused or still says all of its arguments. */
  lemma CutRequest(part: string, text: string)
    requires part <= text && DecodeRequest(part).Some? && DecodeRequest(text).Some?
    ensures DecodeRequest(part) == DecodeRequest(text)
  {
    hide ArgumentsFrom, Consume, Blank;
    var more := text[|part|..];
    assert text == part + more;
    ConsumeLonger(part, '[', more);
    var s := Consume(part, '[').value;
    ConsumeLonger(s, ']', more);
    if Consume(s, ']').None? {
      ArgumentsStart(s);
      ArgumentsLonger(s, more, []);
    }
  }

  lemma ArgumentsStart(s: string)
    requires ArgumentsFrom(s, []).Some?
    ensures Blank(s) != ""
  {
    hide StringBody;
  }

  lemma {:induction false} StepLonger(read: Reader, key: string, s: string, reply: Reply, more: string)
    requires MemberStep(read, key, s, reply).Some? && MemberStep(read, key, s, reply).value.rest != ""
    ensures var step := MemberStep(read, key, s, reply).value;
            MemberStep(read, key, s + more, reply) == Some(Step(step.reply, step.rest + more))
  {
    hide StringToken, NumberRun, NumberAt, CodeOf, Blank, ParseValue;
    SkippedStarts(read, s);
    BlankLonger(s, more);
    ValueLonger(read, s, more);
    var t := Blank(s);
    if key == "stdout" || key == "stderr" {
      if t[0] == '"' && StringToken(s).Some? {
        TokenLonger(s, more);
      }
    } else if key == "exit_code" && StartsNumber(t[0]) {
      CodeLonger(read, t, more);
    }
  }

  lemma SkippedStarts(read: Reader, s: string)
    ensures Blank(s) == "" ==> ParseValue(read, s).None? && StringToken(s).None?
  {
    hide ParseContainer, ParseScalar, StringBody;
  }

  lemma CodeLonger(read: Reader, t: string, more: string)
    requires NumberRun(t) < |t|
    ensures NumberRun(t + more) == NumberRun(t) && NumberAt(read, t + more) == NumberAt(read, t)
    ensures (t + more)[NumberRun(t)..] == t[NumberRun(t)..] + more
  {
    hide NumberRun;
    NumberInside(t, more);
    assert (t + more)[..NumberRun(t)] == t[..NumberRun(t)];
  }

  lemma {:induction false} MembersLonger(read: Reader, s: string, more: string, reply: Reply)
    requires MembersFrom(read, s, reply).Some? && MembersFrom(read, s + more, reply).Some?
    ensures MembersFrom(read, s, reply) == MembersFrom(read, s + more, reply)
    decreases |s|
  {
    hide MembersFrom, MemberStep, KeyPart, Consume, Blank;
    MembersStep(read, s, reply);
    MembersStep(read, s + more, reply);
    KeyLonger(true, s, more);
    var key := KeyPart(true, s).value;
    var step := MemberStep(read, key.text, key.rest, reply).value;
    EmptyRest();
    StepLonger(read, key.text, key.rest, reply, more);
    ConsumeLonger(step.rest, '}', more);
    ConsumeLonger(step.rest, ',', more);
    if Consume(step.rest, '}').None? {
      ConsumeNeeds(step.rest, ',');
      KeyShorter(s);
      MembersLonger(read, Consume(step.rest, ',').value, more, step.reply);
    }
  }

  lemma KeyShorter(s: string)
    requires KeyPart(true, s).Some?
    ensures |KeyPart(true, s).value.rest| < |s|
  {
    hide StringToken;
  }

  /** A reply that was cut off anywhere is refused or still says all that was sent. */
  lemma CutResponse(read: Reader, part: string, text: string)
    requires part <= text && DecodeResponse(read, part).Some? && DecodeResponse(read, text).Some?
    ensures DecodeResponse(read, part) == DecodeResponse(read, text)
  {
    hide MembersFrom, Consume, Blank;
    var more := text[|part|..];
    assert text == part + more;
    ConsumeLonger(part, '{', more);
    MembersLonger(read, Consume(part, '{').value, more, NOTHING);
  }

  // ---- end to end ------------------------------------------------------------------------

  const REQUEST_LIMIT: nat := 64 * 1024
  const NOTICE: string := "encoded response exceeds protocol capacity\n"

  /** The client's arguments, sent, framed and decoded by the daemon. Whatever the sockets do, a decoded
    * request is the one that was sent; it arrives if they work and it keeps the limit. */
  method SendRequest(args: seq<string>, script: seq<WireOutput.Outcome>, arrivals: seq<Arrival>, buffer: array<char>,
          message: array<char>, read: Reader)
    returns (ok: bool, request: array<char>, storage: ArgumentStorage)
    requires message.Length == 66560 && message != buffer
    modifies buffer, message
    ensures storage.Valid() && (ok ==> Terminated(request[..], storage.data[..storage.size], args))
    ensures WireOutput.Reliable(script) && buffer.Length > 0 && Sound(arrivals) ==>
              (ok <==> |WireOutput.RequestText(args, false)| <= 65536)
  {
    hide DecodeRequest, Terminated, WireOutput.Reliable, Sound, IsMessage, WireOutput.JoinedArguments;
    ghost var text := WireOutput.RequestText(args, false);
    var wire := new WireOutput.SocketOutput(buffer, script);
    assert args[0..] == args;
    var sent := WireOutput.SendArguments(wire, args, 0, false);
    assert "" + text == text;
    assert wire.sent <= text && (sent ==> wire.sent == text);
    var stream := wire.sent;
    var received, used := ReadMessage(stream, arrivals, message, REQUEST_LIMIT);
    ghost var part := message[..used];
    assert stream[..|stream|] == stream;
    RequestDecodes(args, part);
    RequestCuts(args, part);
    storage := new ArgumentStorage(REQUEST_LIMIT / 3 + 1);
    request := Taken(message, used);
    if received {
      var c := new Cursor(request, true, read);
      assert c.Unread() == request[..];
      ok := ReadRequest(c, storage);
    } else {
      ok := false;
    }
    if |text| <= REQUEST_LIMIT {
      RequestArrives(args, REQUEST_LIMIT);
    }
  }

  /** The bytes of a message, to be decoded in place. */
  method Taken(message: array<char>, used: nat) returns (copy: array<char>)
    requires used <= message.Length
    ensures fresh(copy) && copy[..] == message[..used]
  {
    copy := new char[used](i requires 0 <= i < used reads message => message[i]);
  }

  /** Every part of a request that is accepted says its arguments. */
  lemma RequestDecodes(args: seq<string>, part: string)
    ensures part <= WireOutput.RequestText(args, false) && DecodeRequest(part).Some? ==>
            DecodeRequest(part) == Some(args)
  {
    hide DecodeRequest, WireOutput.RequestText;
    RequestRoundTrip(args);
    if part <= WireOutput.RequestText(args, false) && DecodeRequest(part).Some? {
      CutRequest(part, WireOutput.RequestText(args, false));
    }
  }

  /** A part with a line break is the whole request. */
  lemma RequestCuts(args: seq<string>, part: string)
    requires part <= WireOutput.RequestText(args, false)
    ensures '\n' in part ==> part == WireOutput.RequestText(args, false)
  {
    hide WireOutput.JoinedArguments;
    var line := "[" + WireOutput.JoinedArguments(args, |args|, false) + "]";
    JoinedIsOneLine(args, |args|);
    assert WireOutput.RequestText(args, false) == line + "\n";
    forall i | 0 <= i < |part| && i < |line|
      ensures part[i] != '\n'
    {
      assert part[i] == line[i];
    }
  }

  /** The daemon's reply, sent, framed and decoded by the client. Whatever the sockets do, a decoded reply
    * has the code and both texts as given, or is the notice when they do not fit; it arrives if they work. */
  method SendReply(done: bool, code: int, number: int, out: string, err: string, script: seq<WireOutput.Outcome>,
          arrivals: seq<Arrival>, buffer: array<char>, message: array<char>, read: Reader)
    returns (ok: bool, received: array<char>, result: int, outView: View, errView: View)
    requires IsReader(read) && IsInt(code) && IsInt(number)
    requires message.Length == 1049600 && message != buffer
    modifies buffer, message
    ensures ok ==>
              if |WireOutput.ResponseText(done, code, number, out, err)| <= 1048576
              then result == code && IsText(received[..], outView, out) && IsText(received[..], errView, err)
              else
                result == 1 && IsText(received[..], outView, "") && IsText(received[..], errView, NOTICE)
    ensures WireOutput.Reliable(script) && buffer.Length > 0 && Sound(arrivals) ==> ok
  {
    hide DecodeResponse, WireOutput.Reliable, Sound, IsMessage, WireOutput.ResponseText, IsText, IsReader;
    ghost var text := WireOutput.Reply(done, code, number, out, err);
    ReplyArrives(read, done, code, number, out, err);
    var sent, wire := WireOutput.SendResponse(buffer, script, done, code, number, out, err);
    var stream := wire.sent;
    assert stream[..|stream|] == stream;
    var framed, used := ReadMessage(stream, arrivals, message, WireOutput.RESPONSE_LIMIT);
    ghost var part := message[..used];
    received := Taken(message, used);
    ok, result, outView, errView := false, 0, View(0, 0), View(0, 0);
    if framed {
      assert part <= text;
      if DecodeResponse(read, part).Some? {
        CutResponse(read, part, text);
      }
      var c := new Cursor(received, true, read);
      assert c.Unread() == received[..] == part;
      ok, result, outView, errView := ReadResponse(c);
    }
  }
}

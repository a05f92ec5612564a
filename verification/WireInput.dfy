/** Reading one newline-terminated message into a fixed buffer. */
module WireInput {

  const READ_CHUNK: nat := 1024

  /** What one read call does; a peer that has sent everything has closed. */
  datatype Arrival = Interrupted | Failed | Bytes(count: nat)

  predicate Sound(script: seq<Arrival>) {
    forall i :: 0 <= i < |script| ==> script[i] == Interrupted || (script[i].Bytes? && script[i].count > 0)
  }

  /** How many of the bytes still coming one read delivers. */
  function Delivered(script: seq<Arrival>, left: nat): (n: nat)
    ensures n <= left && n <= READ_CHUNK
    ensures script != [] && script[0].Bytes? && script[0].count <= left && script[0].count <= 1024 ==>
            n == script[0].count
    ensures script == [] && left <= 1024 ==> n == left
  {
    var most := if left < READ_CHUNK then left else READ_CHUNK;
    if script == [] then most
    else match script[0]
         case Bytes(count) => if count < most then count else most
         case _ => 0
  }

  /** Reads chunks until a chunk holds a newline, the peer closes or a read fails. The limit is
    * looked at before the newline. */
  method ReadMessage(stream: string, arrivals: seq<Arrival>, bytes: array<char>, limit: nat)
    returns (ok: bool, used: nat)
    modifies bytes
    ensures used <= bytes.Length && used <= |stream| && bytes[..used] == stream[..used]
    ensures bytes.Length < limit + 1024 ==> !ok
    ensures ok ==> used <= limit
    ensures !ok ==> used == 0 && (bytes.Length < limit + 1024 || |stream| > limit)
    ensures Sound(arrivals) && ok ==> used == |stream| || '\n' in stream[..used]
    ensures Sound(arrivals) && IsMessage(stream, limit) && limit + 1024 <= bytes.Length ==> ok && used == |stream|
  {
    if IsMessage(stream, limit) {
      LastNewline(stream, limit);
    }
    used := 0;
    if limit > bytes.Length || READ_CHUNK > bytes.Length - limit {
      return false, 0;
    }
    var script := arrivals;
    while true
      invariant used <= limit && used <= |stream| && bytes[..used] == stream[..used]
      invariant Sound(arrivals) ==> Sound(script)
      decreases |stream| - used, |script|
    {
      var count := Delivered(script, |stream| - used);
      var interrupted := script != [] && script[0].Interrupted?;
      var now := script;
      script := if script == [] then [] else script[1..];
      if interrupted {
        continue;
      }
      if count == 0 {
        ok := true;
        return;
      }
      var previous := used;
      Receive(bytes, used, stream[used..used + count]);
      assert stream[..used] + stream[used..used + count] == stream[..used + count];
      used := used + count;
      if used > limit {
        return false, 0;
      }
      if '\n' in stream[previous..used] {
        assert stream[..used] == stream[..previous] + stream[previous..used];
        ok := true;
        return;
      }
    }
  }

  method Receive(bytes: array<char>, at: nat, piece: string)
    requires at + |piece| <= bytes.Length
    modifies bytes
    ensures bytes[..at + |piece|] == old(bytes[..at]) + piece
  {
    var i := 0;
    while i < |piece|
      invariant 0 <= i <= |piece| && bytes[..at + i] == old(bytes[..at]) + piece[..i]
    {
      bytes[at + i] := piece[i];
      i := i + 1;
    }
  }

  /** A message whose only newline is its last character, and that keeps the limit. */
  predicate IsMessage(text: string, limit: nat) {
    text != "" && |text| <= limit && text[|text| - 1] == '\n' && '\n' !in text[..|text| - 1]
  }

  lemma LastNewline(text: string, limit: nat)
    requires IsMessage(text, limit)
    ensures forall k :: 0 <= k < |text| ==> '\n' !in text[..k]
  {
    forall k, i | 0 <= i < k < |text|
      ensures text[..k][i] != '\n'
    {
      assert text[..|text| - 1][i] == text[i];
    }
  }
}

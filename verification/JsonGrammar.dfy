/** The accepted JSON texts and what they denote: the reference recursive parser. */
module JsonGrammar {
  import opened Options
  import opened Ordering
  import opened Text
  import opened DecimalText

  /** Numbers are the bits of a binary64; object members are sorted by key, one per key. */
  datatype Json =
    | Null
    | Bool(value: bool)
    | Number(bits: nat)
    | String(text: string)
    | Array(items: seq<Json>)
    | Object(members: seq<Member<Json>>)

  datatype Member<V> = Member(key: string, value: V)

  /** Text to double: what std::from_chars makes of a whole lexeme, subnormal results refused. */
  type Reader = string -> Option<nat>

  // ---- sorted members --------------------------------------------------------------------

  ghost predicate Sorted<V>(members: seq<Member<V>>) {
    forall i, j :: 0 <= i < j < |members| ==> Less(members[i].key, members[j].key)
  }

  /** Insert or overwrite. */
  function Put<V>(members: seq<Member<V>>, key: string, value: V): seq<Member<V>> {
    if members == [] || Less(key, members[0].key) then [Member(key, value)] + members
    else if key == members[0].key then [Member(key, value)] + members[1..]
    else [members[0]] + Put(members[1..], key, value)
  }

  function Lookup<V>(members: seq<Member<V>>, key: string): Option<V> {
    if members == [] then None
    else if members[0].key == key then Some(members[0].value)
    else Lookup(members[1..], key)
  }

  lemma {:induction false} PutSorted<V>(members: seq<Member<V>>, key: string, value: V)
    requires Sorted(members)
    ensures Sorted(Put(members, key, value))
    ensures forall m :: m in Put(members, key, value) ==> m.key == key || m in members
  {
    hide Less;
    if members != [] {
      if Less(key, members[0].key) {
        forall j | 0 < j < |members|
          ensures Less(key, members[j].key)
        {
          LessTransitive(key, members[0].key, members[j].key);
        }
      } else if key != members[0].key {
        PutSorted(members[1..], key, value);
        LessTotal(key, members[0].key);
        var r := Put(members[1..], key, value);
        forall j | 0 <= j < |r|
          ensures Less(members[0].key, r[j].key)
        {
          assert r[j] in r;
          if r[j].key != key {
            assert r[j] in members[1..];
            var k :| 0 <= k < |members[1..]| && members[1..][k] == r[j];
            assert members[k + 1] == r[j];
          }
        }
      }
    }
  }

  /** A later member with the same key replaces the earlier one. */
  lemma {:induction false} PutLookup<V>(members: seq<Member<V>>, key: string, value: V, k: string)
    requires Sorted(members)
    ensures Lookup(Put(members, key, value), k) == if k == key then Some(value) else Lookup(members, k)
  {
    hide Less;
    if members != [] {
      LessIrreflexive(key);
      if Less(key, members[0].key) {
        NotFirst(members, key);
      } else if key != members[0].key {
        PutLookup(members[1..], key, value, k);
      }
    }
  }

  lemma {:induction false} NotFirst<V>(members: seq<Member<V>>, key: string)
    requires Sorted(members) && members != [] && Less(key, members[0].key)
    ensures Lookup(members, key).None?
  {
    hide Less;
    LessIrreflexive(key);
    if |members| > 1 {
      LessTransitive(key, members[0].key, members[1].key);
      NotFirst(members[1..], key);
    }
  }

  /** Sorted members are determined by what they look up. */
  lemma {:induction false} SortedUnique<V>(a: seq<Member<V>>, b: seq<Member<V>>)
    requires Sorted(a) && Sorted(b) && forall k :: Lookup(a, k) == Lookup(b, k)
    ensures a == b
  {
    hide Less;
    if a != [] {
      assert Lookup(b, a[0].key) == Lookup(a, a[0].key) == Some(a[0].value);
    }
    if b != [] {
      assert Lookup(a, b[0].key) == Lookup(b, b[0].key) == Some(b[0].value);
      SameFirst(a, b);
      forall k
        ensures Lookup(a[1..], k) == Lookup(b[1..], k)
      {
        assert Lookup(a, k) == Lookup(b, k);
        if k == a[0].key {
          TailLacks(a);
          TailLacks(b);
        }
      }
      SortedUnique(a[1..], b[1..]);
      assert a == [a[0]] + a[1..] && b == [b[0]] + b[1..];
    }
  }

  lemma {:induction false} SameFirst<V>(a: seq<Member<V>>, b: seq<Member<V>>)
    requires Sorted(a) && Sorted(b) && a != [] && b != [] && forall k :: Lookup(a, k) == Lookup(b, k)
    ensures a[0] == b[0]
  {
    hide Less;
    LessTotal(a[0].key, b[0].key);
    assert Lookup(a, a[0].key) == Lookup(b, a[0].key);
    assert Lookup(a, b[0].key) == Lookup(b, b[0].key);
    if Less(a[0].key, b[0].key) {
      NotFirst(b, a[0].key);
    } else if Less(b[0].key, a[0].key) {
      NotFirst(a, b[0].key);
    }
  }

  lemma {:induction false} TailLacks<V>(a: seq<Member<V>>)
    requires Sorted(a) && a != []
    ensures Lookup(a[1..], a[0].key).None?
  {
    hide Less;
    if |a| > 1 {
      NotFirst(a[1..], a[0].key);
    }
  }

  // ---- tokens ----------------------------------------------------------------------------

  predicate IsBlank(c: char) { c == ' ' || c == '\n' || c == '\r' || c == '\t' }

  function Blank(s: string): (r: string)
    ensures |r| <= |s| && (r != "" ==> !IsBlank(r[0]))
  {
    if s != "" && IsBlank(s[0]) then Blank(s[1..]) else s
  }

  lemma BlankStops(s: string)
    requires s == "" || !IsBlank(s[0])
    ensures Blank(s) == s
  {}

  lemma BlankGoesOn(s: string)
    requires s != "" && IsBlank(s[0])
    ensures Blank(s) == Blank(s[1..])
  {}

  /** The text after one expected character, blanks skipped. */
  function Consume(s: string, c: char): (r: Option<string>)
    ensures r.Some? ==> |r.value| < |s|
  {
    var t := Blank(s);
    if t != "" && t[0] == c then Some(t[1..]) else None
  }

  predicate StartsNumber(c: char) { c == '-' || '0' <= c <= '9' }

  function SignRun(s: string, plus: bool): (n: nat)
    ensures n <= |s|
  {
    if s != "" && (s[0] == '-' || (plus && s[0] == '+')) then 1 else 0
  }

  function WholeRun(s: string): (n: nat)
    ensures n <= |s| && (s != "" && StartsNumber(s[0]) ==> n > 0)
  {
    var sign := SignRun(s, false);
    sign + DigitRun(s[sign..])
  }

  function FractionRun(s: string): (n: nat)
    ensures n <= |s|
  {
    if s != "" && s[0] == '.' then 1 + DigitRun(s[1..]) else 0
  }

  function ExponentRun(s: string): (n: nat)
    ensures n <= |s|
  {
    if s != "" && (s[0] == 'e' || s[0] == 'E') then
      var sign := 1 + SignRun(s[1..], true);
      sign + DigitRun(s[sign..])
    else 0
  }

  /** End of the characters a number may consist of; whether they are a number is the reader's matter. */
  function NumberRun(s: string): (n: nat)
    ensures n <= |s| && (s != "" && StartsNumber(s[0]) ==> n > 0)
  {
    var whole := WholeRun(s);
    var point := whole + FractionRun(s[whole..]);
    point + ExponentRun(s[point..])
  }

  function NumberAt(read: Reader, s: string): Option<nat> {
    Convert(read, s[..NumberRun(s)])
  }

  function Convert(read: Reader, lexeme: string): Option<nat> { read(lexeme) }

  predicate IsHex(c: char) { '0' <= c <= '9' || 'a' <= c <= 'f' || 'A' <= c <= 'F' }

  function HexValue(c: char): (d: nat)
    requires IsHex(c)
    ensures d < 16
  {
    if c <= '9' then (c - '0') as nat else if c <= 'F' then (c - 'A') as nat + 10 else (c - 'a') as nat + 10
  }

  /** UTF-8 style bytes of one UTF-16 code unit, surrogates not joined. */
  function UnitBytes(code: nat): (s: string)
    requires code < 0x1_0000
    ensures 1 <= |s| <= 3
  {
    if code <= 0x7f then [code as char]
    else if code <= 0x7ff then [(0xc0 + code / 64) as char, (0x80 + code % 64) as char]
    else [(0xe0 + code / 4096) as char, (0x80 + code / 64 % 64) as char, (0x80 + code % 64) as char]
  }

  function SimpleEscape(c: char): Option<char> {
    if c == '"' || c == '\\' || c == '/' then Some(c)
    else if c == 'b' then Some('\U{8}')
    else if c == 'f' then Some('\U{c}')
    else if c == 'n' then Some('\n')
    else if c == 'r' then Some('\r')
    else if c == 't' then Some('\t')
    else None
  }

  datatype Decoded = Decoded(text: string, length: nat)

  function HexCode(s: string): (code: nat)
    requires |s| == 4 && IsHex(s[0]) && IsHex(s[1]) && IsHex(s[2]) && IsHex(s[3])
    ensures code < 0x1_0000
  {
    HexValue(s[0]) * 4096 + HexValue(s[1]) * 256 + HexValue(s[2]) * 16 + HexValue(s[3])
  }

  /** One character or escape inside a string. Decoding never lengthens. */
  function Decode(s: string): (r: Option<Decoded>)
    requires s != "" && s[0] != '"'
    ensures r.Some? ==> 0 < |r.value.text| <= r.value.length <= |s|
  {
    if s[0] != '\\' then Some(Decoded([s[0]], 1))
    else if |s| < 2 then None
    else if s[1] == 'u' then
      if |s| < 6 || !(IsHex(s[2]) && IsHex(s[3]) && IsHex(s[4]) && IsHex(s[5])) then None
      else Some(Decoded(UnitBytes(HexCode(s[2..6])), 6))
    else
      match SimpleEscape(s[1])
      case Some(c) => Some(Decoded([c], 2))
      case None => None
  }

  datatype Quoted = Quoted(text: string, rest: string)

  /** The rest of a string after its opening quote. */
  function StringBody(s: string): (r: Option<Quoted>)
    ensures r.Some? ==> |r.value.rest| < |s|
  {
    if s == "" then None
    else if s[0] == '"' then Some(Quoted("", s[1..]))
    else
      var d := Decode(s);
      if d.None? then None else Prepend(d.value.text, StringBody(s[d.value.length..]))
  }

  function Prepend(text: string, q: Option<Quoted>): Option<Quoted> {
    match q
    case None => None
    case Some(Quoted(t, rest)) => Some(Quoted(text + t, rest))
  }

  /** A quoted string, blanks skipped. */
  function StringToken(s: string): (r: Option<Quoted>)
    ensures r.Some? ==> |r.value.rest| < |s|
  {
    var body := Consume(s, '"');
    if body.None? then None else StringBody(body.value)
  }

  // ---- values ----------------------------------------------------------------------------

  /** A value, what follows it and how deeply it nests. */
  datatype Parsed = Parsed(value: Json, rest: string, height: nat)

  function Max(a: nat, b: nat): nat { if a < b then b else a }

  function Literal(s: string, word: string, value: Json): (r: Option<Parsed>)
    ensures r.Some? ==> |r.value.rest| + |word| == |s|
  {
    if word <= s then Some(Parsed(value, s[|word|..], 1)) else None
  }

  function ParseValue(read: Reader, s: string): (r: Option<Parsed>)
    ensures r.Some? ==> |r.value.rest| < |s| && r.value.height > 0
    decreases |s|, 2
  {
    ParseToken(read, Blank(s))
  }

  function ParseToken(read: Reader, t: string): (r: Option<Parsed>)
    ensures r.Some? ==> |r.value.rest| < |t| && r.value.height > 0
    decreases |t|, 1
  {
    if t == "" then None
    else if t[0] == '{' then ParseContainer(read, true, t[1..])
    else if t[0] == '[' then ParseContainer(read, false, t[1..])
    else ParseScalar(read, t)
  }

  /** A string, number or name. */
  function ParseScalar(read: Reader, t: string): (r: Option<Parsed>)
    requires t != ""
    ensures r.Some? ==> |r.value.rest| < |t| && r.value.height == 1
  {
    if t[0] == '"' then
      var q := StringBody(t[1..]);
      if q.None? then None else Some(Parsed(String(q.value.text), q.value.rest, 1))
    else if StartsNumber(t[0]) then
      var x := NumberAt(read, t);
      if x.None? then None else Some(Parsed(Json.Number(x.value), t[NumberRun(t)..], 1))
    else if t[0] == 't' then Literal(t, "true", Bool(true))
    else if t[0] == 'f' then Literal(t, "false", Bool(false))
    else Literal(t, "null", Null)
  }

  function Closing(braces: bool): char { if braces then '}' else ']' }

  /** An object or array after its opening bracket. */
  function ParseContainer(read: Reader, braces: bool, s: string): (r: Option<Parsed>)
    ensures r.Some? ==> |r.value.rest| < |s| && r.value.height > 0
    decreases |s|, 4
  {
    var close := Consume(s, Closing(braces));
    if close.Some? then Some(Parsed(if braces then Object([]) else Array([]), close.value, 1))
    else if braces then ParseMembers(read, s, [], 0)
    else ParseItems(read, s, [], 0)
  }

  /** Array elements after the opening bracket or a comma. */
  function ParseItems(read: Reader, s: string, before: seq<Json>, height: nat): (r: Option<Parsed>)
    ensures r.Some? ==> |r.value.rest| < |s| && r.value.height > 0
    decreases |s|, 3
  {
    var v := ParseValue(read, s);
    if v.None? then None
    else
      var items, h := before + [v.value.value], Max(height, v.value.height);
      var close, comma := Consume(v.value.rest, ']'), Consume(v.value.rest, ',');
      if close.Some? then Some(Parsed(Array(items), close.value, h + 1))
      else if comma.None? then None
      else ParseItems(read, comma.value, items, h)
  }

  /** Object members after the opening brace or a comma; a repeated key keeps the last value. */
  function ParseMembers(read: Reader, s: string, before: seq<Member<Json>>, height: nat): (r: Option<Parsed>)
    ensures r.Some? ==> |r.value.rest| < |s| && r.value.height > 0
    decreases |s|, 3
  {
    var key := StringToken(s);
    if key.None? then None
    else
      var colon := Consume(key.value.rest, ':');
      if colon.None? then None
      else
        var v := ParseValue(read, colon.value);
        if v.None? then None
        else
          var members, h := Put(before, key.value.text, v.value.value), Max(height, v.value.height);
          var close, comma := Consume(v.value.rest, '}'), Consume(v.value.rest, ',');
          if close.Some? then Some(Parsed(Object(members), close.value, h + 1))
          else if comma.None? then None
          else ParseMembers(read, comma.value, members, h)
  }

  /** A whole text: one value and blanks. */
  function ParseText(read: Reader, s: string): Option<Parsed> {
    var v := ParseValue(read, s);
    if v.Some? && Blank(v.value.rest) == "" then v else None
  }

  // ---- objects and arrays alike ----------------------------------------------------------

  /** The members of a list of keys and values, the last value of a key counting. */
  function PutAll<V>(keys: seq<string>, values: seq<V>): seq<Member<V>>
    requires |keys| == |values|
  {
    if keys == [] then []
    else
      var n := |keys| - 1;
      Put(PutAll(keys[..n], values[..n]), keys[n], values[n])
  }

  function Container(braces: bool, keys: seq<string>, values: seq<Json>): Json
    requires |keys| == |values|
  {
    if braces then Object(PutAll(keys, values)) else Array(values)
  }

  /** The key and colon of an object member; nothing in an array. */
  function KeyPart(braces: bool, s: string): (r: Option<Quoted>)
    ensures r.Some? ==> |r.value.rest| <= |s|
  {
    if !braces then Some(Quoted("", s))
    else
      var key := StringToken(s);
      if key.None? then None
      else
        var colon := Consume(key.value.rest, ':');
        if colon.None? then None else Some(Quoted(key.value.text, colon.value))
  }

  /** The rest of a container of which some elements have been read. */
  function ParseRest(read: Reader, braces: bool, s: string, keys: seq<string>, values: seq<Json>,
          height: nat): Option<Parsed>
    requires |keys| == |values|
  {
    if braces then ParseMembers(read, s, PutAll(keys, values), height) else ParseItems(read, s, values, height)
  }

  lemma {:induction false} RestStep(read: Reader, braces: bool, s: string, keys: seq<string>, values: seq<Json>,
          height: nat)
    requires |keys| == |values|
    ensures var r, key := ParseRest(read, braces, s, keys, values, height), KeyPart(braces, s);
            if key.None? then r.None?
            else
              var v := ParseValue(read, key.value.rest);
              if v.None? then r.None?
              else
                var ks, vs, h := keys + [key.value.text], values + [v.value.value], Max(height, v.value.height);
                var close, comma := Consume(v.value.rest, Closing(braces)), Consume(v.value.rest, ',');
                r == if close.Some? then Some(Parsed(Container(braces, ks, vs), close.value, h + 1))
                     else if comma.None? then None
                     else ParseRest(read, braces, comma.value, ks, vs, h)
  {
    hide ParseValue, StringToken, Consume, Put;
    var key := KeyPart(braces, s);
    if key.Some? {
      var v := ParseValue(read, key.value.rest);
      if v.Some? {
        assert (keys + [key.value.text])[..|keys|] == keys && (values + [v.value.value])[..|values|] == values;
      }
    }
  }

  lemma {:induction false} BlankTwice(s: string)
    ensures Blank(Blank(s)) == Blank(s)
  {
    if s != "" && IsBlank(s[0]) {
      BlankTwice(s[1..]);
    }
  }

  /** Leading blanks make no difference to what comes next. */
  lemma {:induction false} BlankFirst(read: Reader, s: string)
    ensures ParseValue(read, Blank(s)) == ParseValue(read, s) && StringToken(Blank(s)) == StringToken(s)
  {
    hide Blank, ParseToken, StringBody;
    BlankTwice(s);
    ConsumeBlank(s, '"');
    hide Consume;
  }

  lemma ConsumeBlank(s: string, c: char)
    ensures Consume(Blank(s), c) == Consume(s, c)
  {
    hide Blank;
    BlankTwice(s);
  }

  lemma {:induction false} RestBlank(read: Reader, braces: bool, s: string, keys: seq<string>, values: seq<Json>,
          height: nat)
    requires |keys| == |values|
    ensures ParseRest(read, braces, Blank(s), keys, values, height) == ParseRest(read, braces, s, keys, values, height)
  {
    hide Blank, ParseValue, StringToken, Consume;
    BlankFirst(read, s);
  }

  /** A container is deeper than what has been read of it. */
  lemma {:induction false} RestHeight(read: Reader, braces: bool, s: string, keys: seq<string>, values: seq<Json>,
          height: nat)
    requires |keys| == |values| && ParseRest(read, braces, s, keys, values, height).Some?
    ensures ParseRest(read, braces, s, keys, values, height).value.height > height
    decreases |s|
  {
    hide ParseValue, StringToken, ParseRest;
    RestStep(read, braces, s, keys, values, height);
    var key := KeyPart(braces, s).value;
    var v := ParseValue(read, key.rest).value;
    var comma := Consume(v.rest, ',');
    if Consume(v.rest, Closing(braces)).None? {
      RestHeight(read, braces, comma.value, keys + [key.text], values + [v.value], Max(height, v.height));
    }
  }

  lemma {:induction false} RestDeeper(read: Reader, braces: bool, s: string, keys: seq<string>, values: seq<Json>,
          height: nat)
    requires |keys| == |values| && ParseRest(read, braces, s, keys, values, height).Some?
    ensures KeyPart(braces, s).Some? && ParseValue(read, KeyPart(braces, s).value.rest).Some?
    ensures ParseRest(read, braces, s, keys, values, height).value.height
            > ParseValue(read, KeyPart(braces, s).value.rest).value.height
  {
    hide ParseValue, StringToken, ParseRest;
    RestStep(read, braces, s, keys, values, height);
    var key := KeyPart(braces, s).value;
    var v := ParseValue(read, key.rest).value;
    var comma := Consume(v.rest, ',');
    if Consume(v.rest, Closing(braces)).None? {
      RestHeight(read, braces, comma.value, keys + [key.text], values + [v.value], Max(height, v.height));
    }
  }

  lemma ContainerRest(read: Reader, braces: bool, s: string)
    ensures var close := Consume(s, Closing(braces));
            ParseContainer(read, braces, s)
            == if close.Some? then Some(Parsed(Container(braces, [], []), close.value, 1))
               else ParseRest(read, braces, s, [], [], 0)
  {}

  const DEPTH_LIMIT: nat := 128

  /** Accepted below the nesting limit when standing at this depth. */
  predicate Fits(p: Option<Parsed>, depth: nat) {
    p.Some? && depth + p.value.height <= DEPTH_LIMIT
  }
}

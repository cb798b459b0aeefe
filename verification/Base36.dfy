/** The base 36 text in which CAS values, vbucket UUIDs and sequence numbers travel. */
module Base36 {
  import opened Wrappers

  const U64: nat := 0x1_0000_0000_0000_0000

  type u64 = x: int | 0 <= x < U64

  type digit = d: int | 0 <= d < 36

  /** The source's table "0123456789abcdefghijklmnopqrstuvwxyz". */
  function DigitChar(d: digit): char {
    if d < 10 then (d + '0' as int) as char else (d - 10 + 'a' as int) as char
  }

  /** What a character counts for; any other character is skipped. */
  function DigitOf(c: char): (d: Option<digit>) {
    if '0' <= c <= '9' then Some(c as int - '0' as int)
    else if 'A' <= c <= 'Z' then Some(c as int - 'A' as int + 10)
    else if 'a' <= c <= 'z' then Some(c as int - 'a' as int + 10)
    else None
  }

  /** The digits of a text, in order, whatever lies between them. */
  function DigitsOf(s: string): (ds: seq<digit>)
    ensures |ds| <= |s|
  {
    if s == [] then []
    else
      var front := DigitsOf(s[..|s| - 1]);
      match DigitOf(s[|s| - 1])
      case None => front
      case Some(d) => front + [d]
  }

  function Value(ds: seq<digit>): nat {
    if ds == [] then 0 else Value(ds[..|ds| - 1]) * 36 + ds[|ds| - 1]
  }

  /** The number a text stands for: its value in base 36, modulo 2^64. */
  function Decode(s: string): (n: u64) {
    Value(DigitsOf(s)) % U64
  }

  /** The shortest base 36 text of a number, most significant digit first. */
  function Encode(n: nat): (s: string)
    ensures s != []
  {
    if n < 36 then [DigitChar(n)] else Encode(n / 36) + [DigitChar(n % 36)]
  }

  // ---- The C functions ----------------------------------------------------------------------------

  lemma HornerStep(x: nat, d: digit)
    ensures (x % U64 * 36 + d) % U64 == (x * 36 + d) % U64
  {
    var q := x / U64;
    assert x * 36 + d == (x % U64 * 36 + d) + (36 * q) * U64;
    AddMultiple(x % U64 * 36 + d, 36 * q);
  }

  lemma {:induction false} AddMultiple(x: nat, q: nat)
    ensures (x + q * U64) % U64 == x % U64
    decreases q
  {
    if q > 0 {
      AddMultiple(x, q - 1);
      assert x + q * U64 == (x + (q - 1) * U64) + U64;
    }
  }

  lemma DecodeStep(s: string, i: nat)
    requires i < |s|
    ensures Decode(s[..i + 1]) == (match DigitOf(s[i])
                                   case None => Decode(s[..i])
                                   case Some(d) => (Decode(s[..i]) * 36 + d) % U64)
  {
    hide DigitOf;
    assert s[..i + 1] == s[..i] + [s[i]];
    DigitsOfAppend(s[..i], s[i]);
    if DigitOf(s[i]).Some? {
      ValueAppend(DigitsOf(s[..i]), DigitOf(s[i]).value);
      HornerStep(Value(DigitsOf(s[..i])), DigitOf(s[i]).value);
    }
  }

  /** pcbc_base36_decode_str: Horner's rule in wrapping 64-bit arithmetic. */
  method DecodeStr(s: string) returns (num: u64)
    ensures num == Decode(s)
  {
    num := 0;
    var i := 0;
    assert s[..0] == [];
    hide Decode;
    while i < |s|
      invariant i <= |s|
      invariant num == Decode(s[..i])
    {
      DecodeStep(s, i);
      var c := s[i];
      i := i + 1;
      var d: digit;
      if '0' <= c <= '9' {
        d := c as int - '0' as int;
      } else if 'A' <= c <= 'Z' {
        d := c as int - ('A' as int - 10);
      } else if 'a' <= c <= 'z' {
        d := c as int - ('a' as int - 10);
      } else {
        continue;
      }
      num := (num * 36 + d) % U64;
    }
    assert s[..i] == s;
  }

  function Power(k: nat): nat {
    if k == 0 then 1 else 36 * Power(k - 1)
  }

  lemma {:induction false} DigitsBound(n: nat, k: nat)
    requires k >= 1 && n < Power(k)
    ensures |Encode(n)| <= k
    decreases k
  {
    if n >= 36 {
      DigitsBound(n / 36, k - 1);
    }
  }

  /** Thirteen digits hold any 64-bit number, so the buffer's `ptr > buf` test never cuts one off. */
  lemma LengthBound(n: u64)
    ensures |Encode(n)| <= 13
  {
    assert Power(13) == 0x9_3F4C_09FF_A400_0000;
    DigitsBound(n, 13);
  }

  /** The digits still to be written when `num` is left. */
  function Remaining(num: nat): string {
    if num == 0 then [] else Encode(num)
  }

  lemma OneDigit(num: nat, tail: string)
    ensures num > 0 ==> Remaining(num) + tail == Remaining(num / 36) + ([DigitChar(num % 36)] + tail)
    ensures num == 0 ==> Encode(num) == [DigitChar(0)]
  {
    hide DigitChar;
    if num > 0 {
      assert Encode(num) == Remaining(num / 36) + [DigitChar(num % 36)];
    }
  }

  /** pcbc_base36_encode_str: digits are written backwards from the end of a 14-byte buffer. */
  method EncodeStr(n: u64) returns (s: string)
    ensures s == Encode(n)
  {
    hide DigitChar, Encode;
    LengthBound(n);
    OneDigit(n, []);
    var buf := new char[14](i => '\0');
    var end := 13;
    var num: u64 := n;
    var ptr := end - 1;
    buf[ptr] := DigitChar(num % 36);
    num := num / 36;
    assert buf[ptr..end] == [DigitChar(n % 36)] + [] && (n > 0 ==> Remaining(n) + [] == Encode(n));
    assert n == 0 ==> buf[ptr..end] == Encode(n);
    while ptr > 0 && num != 0
      invariant 0 <= ptr < end
      invariant Remaining(num) + buf[ptr..end] == Encode(n)
      decreases ptr
    {
      ghost var tail := buf[ptr..end];
      OneDigit(num, tail);
      ptr := ptr - 1;
      buf[ptr] := DigitChar(num % 36);
      assert buf[ptr..end] == [DigitChar(num % 36)] + tail;
      num := num / 36;
    }
    s := buf[ptr..end];
  }

  // ---- What the two promise each other --------------------------------------------------------------

  lemma DigitOfDigitChar(d: digit)
    ensures DigitOf(DigitChar(d)) == Some(d)
  {
  }

  lemma DigitsOfAppend(s: string, c: char)
    ensures DigitsOf(s + [c]) == (match DigitOf(c) case None => DigitsOf(s) case Some(d) => DigitsOf(s) + [d])
  {
    assert (s + [c])[..|s|] == s;
  }

  lemma ValueAppend(ds: seq<digit>, d: digit)
    ensures Value(ds + [d]) == Value(ds) * 36 + d
  {
    assert (ds + [d])[..|ds|] == ds;
  }

  lemma {:induction false} ValueOfEncode(n: nat)
    ensures Value(DigitsOf(Encode(n))) == n
    decreases n
  {
    hide DigitOf, DigitChar;
    DigitOfDigitChar(n % 36);
    if n < 36 {
      DigitsOfAppend("", DigitChar(n));
      assert "" + [DigitChar(n)] == [DigitChar(n)];
      ValueAppend([], n);
    } else {
      hide DigitsOf, Value;
      ValueOfEncode(n / 36);
      DigitsOfAppend(Encode(n / 36), DigitChar(n % 36));
      ValueAppend(DigitsOf(Encode(n / 36)), n % 36);
    }
  }

  /** Every 64-bit number comes back from its text. */
  lemma RoundTrip(n: u64)
    ensures Decode(Encode(n)) == n
  {
    hide Encode, Value, DigitsOf;
    ValueOfEncode(n);
  }

  /** A text as the encoder writes it: lower-case digits, no leading zero but in "0" itself. */
  predicate Canonical(s: string) {
    && s != []
    && (forall i :: 0 <= i < |s| ==> '0' <= s[i] <= '9' || 'a' <= s[i] <= 'z')
    && (s[0] == '0' ==> |s| == 1)
  }

  lemma {:induction false} EncodeIsCanonical(n: nat)
    ensures Canonical(Encode(n))
    ensures n > 0 ==> Encode(n)[0] != '0'
    decreases n
  {
    if n >= 36 {
      EncodeIsCanonical(n / 36);
    }
  }

  lemma CanonicalDigit(c: char)
    requires '0' <= c <= '9' || 'a' <= c <= 'z'
    ensures DigitOf(c).Some? && DigitChar(DigitOf(c).value) == c
    ensures c == '0' <==> DigitOf(c).value == 0
  {
  }

  lemma EncodeStep(n: nat, d: digit)
    requires n > 0
    ensures Encode(n * 36 + d) == Encode(n) + [DigitChar(d)]
  {
    hide DigitChar;
    assert (n * 36 + d) / 36 == n && (n * 36 + d) % 36 == d;
  }

  lemma ValueStep(front: string, c: char)
    requires DigitOf(c).Some?
    ensures Value(DigitsOf(front + [c])) == Value(DigitsOf(front)) * 36 + DigitOf(c).value
    ensures Value(DigitsOf([])) == 0
  {
    hide DigitOf;
    DigitsOfAppend(front, c);
    ValueAppend(DigitsOf(front), DigitOf(c).value);
  }

  lemma {:induction false} EncodeOfValue(s: string)
    requires Canonical(s)
    ensures Encode(Value(DigitsOf(s))) == s
    ensures s[0] != '0' ==> Value(DigitsOf(s)) > 0
    decreases |s|
  {
    hide DigitOf, DigitChar, Value, DigitsOf;
    var front, c := s[..|s| - 1], s[|s| - 1];
    assert s == front + [c];
    CanonicalDigit(c);
    ValueStep(front, c);
    if front != [] {
      hide Encode;
      EncodeOfValue(front);
      EncodeStep(Value(DigitsOf(front)), DigitOf(c).value);
    }
  }

  /** A text comes back from its number exactly when the encoder could have written it. */
  lemma TextRoundTrip(s: string)
    ensures Encode(Decode(s)) == s <==> Canonical(s) && Value(DigitsOf(s)) < U64
  {
    hide Encode, Value, DigitsOf;
    if Canonical(s) && Value(DigitsOf(s)) < U64 {
      EncodeOfValue(s);
    }
    if Encode(Decode(s)) == s {
      EncodeIsCanonical(Decode(s));
      ValueOfEncode(Decode(s));
    }
  }

  /** Lower case for letters, nothing for characters that are not letters or digits. */
  function Folded(s: string): string {
    if s == [] then []
    else
      var front, c := Folded(s[..|s| - 1]), s[|s| - 1];
      if 'A' <= c <= 'Z' then front + [(c as int + 32) as char]
      else if DigitOf(c).Some? then front + [c]
      else front
  }

  /** The digits of a text are its folded characters, one for one. */
  lemma {:induction false} DigitsOfFolded(s: string)
    ensures |DigitsOf(s)| == |Folded(s)|
    ensures forall i :: 0 <= i < |Folded(s)| ==>
              DigitChar(DigitsOf(s)[i]) == Folded(s)[i] && DigitOf(Folded(s)[i]) == Some(DigitsOf(s)[i])
  {
    if s != [] {
      DigitsOfFolded(s[..|s| - 1]);
    }
  }

  /** Letter case and characters that are not letters or digits never matter, and nothing else is ignored:
      two texts have the same digits, and so decode alike, exactly when they are the same once folded. */
  lemma DecodeIgnores(a: string, b: string)
    ensures DigitsOf(a) == DigitsOf(b) <==> Folded(a) == Folded(b)
    ensures Folded(a) == Folded(b) ==> Decode(a) == Decode(b)
  {
    hide Folded, DigitsOf, DigitOf, DigitChar, Value;
    DigitsOfFolded(a);
    DigitsOfFolded(b);
    var x, y, u, v := DigitsOf(a), DigitsOf(b), Folded(a), Folded(b);
    if x == y {
      forall i | 0 <= i < |u| ensures u[i] == v[i] {
        assert u[i] == DigitChar(x[i]) && v[i] == DigitChar(y[i]);
      }
      assert u == v;
    }
    if u == v {
      forall i | 0 <= i < |x| ensures x[i] == y[i] {
        assert DigitOf(u[i]) == Some(x[i]) && DigitOf(v[i]) == Some(y[i]);
      }
      assert x == y;
    }
  }

  // ---- The alphabet and the order ------------------------------------------------------------------

  /** The digits are the 36 characters of the alphabet, in its order. */
  lemma AlphabetRule()
    ensures seq(36, d requires 0 <= d < 36 => DigitChar(d)) == "0123456789abcdefghijklmnopqrstuvwxyz"
  {
  }

  /** A character counts as the digit it is written for, a capital as its small letter, and no other counts. */
  lemma DigitRule(c: char)
    ensures DigitOf(c).Some? <==> '0' <= c <= '9' || 'a' <= c <= 'z' || 'A' <= c <= 'Z'
    ensures DigitOf(c).Some? ==>
              DigitChar(DigitOf(c).value) == (if 'A' <= c <= 'Z' then (c as int + 32) as char else c)
  {
  }

  lemma CanonicalOrder(c: char, d: char)
    requires '0' <= c <= '9' || 'a' <= c <= 'z'
    requires '0' <= d <= '9' || 'a' <= d <= 'z'
    ensures DigitOf(c).Some? && DigitOf(d).Some?
    ensures c < d <==> DigitOf(c).value < DigitOf(d).value
    ensures c == d <==> DigitOf(c) == DigitOf(d)
  {
  }

  lemma {:induction false} ValueOrder(a: seq<digit>, b: seq<digit>, k: nat)
    requires |a| == |b| && k < |a| && a[..k] == b[..k] && a[k] < b[k]
    ensures Value(a) < Value(b)
    decreases |a|
  {
    var n := |a| - 1;
    if k < n {
      assert a[..n][..k] == a[..k] && b[..n][..k] == b[..k];
      ValueOrder(a[..n], b[..n], k);
    } else {
      assert a[..n] == b[..n];
    }
  }

  lemma {:induction false} DigitsOfCanonical(s: string)
    requires forall i :: 0 <= i < |s| ==> '0' <= s[i] <= '9' || 'a' <= s[i] <= 'z'
    ensures |DigitsOf(s)| == |s|
    ensures forall i :: 0 <= i < |s| ==> DigitOf(s[i]) == Some(DigitsOf(s)[i])
    decreases |s|
  {
    if s != [] {
      CanonicalDigit(s[|s| - 1]);
      DigitsOfCanonical(s[..|s| - 1]);
    }
  }

  /** Canonical texts of equal length are ordered as their values: the first difference decides. */
  lemma TextOrder(a: string, b: string, k: nat)
    requires Canonical(a) && Canonical(b)
    requires |a| == |b| && k < |a| && a[..k] == b[..k] && a[k] < b[k]
    ensures Value(DigitsOf(a)) < Value(DigitsOf(b))
  {
    hide DigitsOf, Value, DigitOf, DigitChar;
    DigitsOfCanonical(a);
    DigitsOfCanonical(b);
    var x, y := DigitsOf(a), DigitsOf(b);
    forall i | 0 <= i < k ensures x[i] == y[i] {
      assert a[i] == a[..k][i] == b[..k][i] == b[i];
    }
    assert x[..k] == y[..k];
    CanonicalOrder(a[k], b[k]);
    ValueOrder(x, y, k);
  }

  // ---- CAS values -----------------------------------------------------------------------------------

  /** A PHP value offered as a CAS: only a string is one. */
  datatype CasText = NotAString | Text(s: string)

  function CasDecode(cas: CasText): (n: u64) {
    match cas
    case NotAString => 0
    case Text(s) => Decode(s)
  }

  function CasEncode(cas: u64): CasText {
    Text(Encode(cas))
  }

  lemma CasRoundTrip(cas: u64)
    ensures CasEncode(cas).Text? && CasDecode(CasEncode(cas)) == cas
    ensures CasDecode(NotAString) == 0
  {
    RoundTrip(cas);
  }
}

/**
  The Python built-ins the task table uses to read and write cell text:
  str.strip(), int() and float() on a string, str.split(','), str() of an int
  and sorted() on a list of floats. Numbers are exact (int, real): the binary64
  rounding of float() is not modelled.
 */
module PyText {

  datatype Option<+T> = None | Some(value: T)

  /** Characters str.isspace() accepts, restricted to the Latin-1 range. */
  predicate IsSpace(c: char) {
    c in {' ', '\t', '\n', '\r', '\U{0B}', '\U{0C}', '\U{1C}', '\U{1D}', '\U{1E}', '\U{1F}', '\U{85}', '\U{A0}'}
  }

  predicate NoSpace(s: string) {
    forall i :: 0 <= i < |s| ==> !IsSpace(s[i])
  }

  function StripLeft(s: string): (r: string)
    ensures |r| <= |s| && r == s[|s| - |r|..]
    ensures r == [] || !IsSpace(r[0])
    ensures forall i :: 0 <= i < |s| - |r| ==> IsSpace(s[i])
  {
    if s != [] && IsSpace(s[0]) then
      var r := StripLeft(s[1..]);
      assert forall i :: 1 <= i < |s| - |r| ==> s[i] == s[1..][i - 1];
      r
    else s
  }

  function StripRight(s: string): (r: string)
    ensures |r| <= |s| && r == s[..|r|]
    ensures r == [] || !IsSpace(r[|r| - 1])
    ensures forall i :: |r| <= i < |s| ==> IsSpace(s[i])
  {
    if s != [] && IsSpace(s[|s| - 1]) then StripRight(s[..|s| - 1]) else s
  }

  /** str.strip(): the text with its leading and trailing whitespace removed. */
  function Strip(s: string): (r: string)
    ensures r == [] || (!IsSpace(r[0]) && !IsSpace(r[|r| - 1]))
    ensures NoSpace(s) ==> r == s
  {
    StripRight(StripLeft(s))
  }

  /** A text that neither starts nor ends with whitespace is its own strip(). */
  lemma StripUnpadded(s: string)
    requires s != [] && !IsSpace(s[0]) && !IsSpace(s[|s| - 1])
    ensures Strip(s) == s
  {
    assert StripLeft(s) == s;
    assert StripRight(s) == s;
  }

  /** r is s with its first i characters and its last |s| - i - |r| characters cut
      off, every one of them whitespace. */
  predicate CutAt(s: string, r: string, i: int) {
    && 0 <= i && i + |r| <= |s| && r == s[i..i + |r|]
    && (forall k :: 0 <= k < i ==> IsSpace(s[k]))
    && (forall k :: i + |r| <= k < |s| ==> IsSpace(s[k]))
  }

  /** strip() removes whitespace from both ends and nothing else: what is left is a
      run of s that starts and ends with non-whitespace (or is empty). */
  lemma StripCut(s: string)
    ensures exists i :: CutAt(s, Strip(s), i)
  {
    var l := StripLeft(s);
    var r := StripRight(l);
    CutOfBothEnds(s, l, r);
    assert CutAt(s, Strip(s), |s| - |l|);
  }

  /** Cutting leading whitespace off s to get l, then trailing whitespace off l to
      get r, cuts r out of s where l starts. */
  lemma CutOfBothEnds(s: string, l: string, r: string)
    requires |l| <= |s| && l == s[|s| - |l|..]
    requires forall k :: 0 <= k < |s| - |l| ==> IsSpace(s[k])
    requires |r| <= |l| && r == l[..|r|]
    requires forall k :: |r| <= k < |l| ==> IsSpace(l[k])
    ensures CutAt(s, r, |s| - |l|)
  {
    var i := |s| - |l|;
    assert r == s[i..i + |r|];
    forall k | i + |r| <= k < |s| ensures IsSpace(s[k]) {
      assert s[k] == l[k - i];
    }
  }

  /** str.endswith */
  predicate EndsWith(s: string, suffix: string) {
    |suffix| <= |s| && s[|s| - |suffix|..] == suffix
  }

  /** First position of c in s, or |s| when c does not occur. */
  function FirstIndexOf(s: string, c: char): (i: nat)
    ensures i <= |s|
    ensures i < |s| ==> s[i] == c
    ensures forall k :: 0 <= k < i ==> s[k] != c
  {
    if s == [] then 0 else if s[0] == c then 0 else 1 + FirstIndexOf(s[1..], c)
  }

  /** Last position of c in s, if c occurs. */
  function LastIndexOf(s: string, c: char): (r: Option<nat>)
    ensures r.Some? ==> r.value < |s| && s[r.value] == c
    ensures r.Some? ==> forall k :: r.value < k < |s| ==> s[k] != c
    ensures r.None? ==> c !in s
  {
    if s == [] then None
    else if s[|s| - 1] == c then Some(|s| - 1)
    else LastIndexOf(s[..|s| - 1], c)
  }

  /** The last occurrence of c is at p when s[p] is c and no later character is. */
  lemma LastIndexAt(s: string, c: char, p: nat)
    requires p < |s| && s[p] == c
    requires forall k :: p < k < |s| ==> s[k] != c
    ensures LastIndexOf(s, c) == Some(p)
  {
    assert c in s;
  }

  // ---------------------------------------------------------------- digits

  predicate IsDigit(c: char) { '0' <= c <= '9' }

  predicate AllDigits(s: string) {
    forall i :: 0 <= i < |s| ==> IsDigit(s[i])
  }

  function DigitValue(c: char): nat
    requires IsDigit(c)
  {
    (c as int) - ('0' as int)
  }

  function DigitChar(d: nat): (c: char)
    requires d < 10
    ensures IsDigit(c) && DigitValue(c) == d
  {
    (('0' as int) + d) as char
  }

  function Pow10(n: nat): (p: nat)
    ensures p >= 1
  {
    if n == 0 then 1 else 10 * Pow10(n - 1)
  }

  /** Value of a string of decimal digits, most significant first. */
  function DigitsValue(s: string): nat
    requires AllDigits(s)
  {
    if s == [] then 0 else DigitsValue(s[..|s| - 1]) * 10 + DigitValue(s[|s| - 1])
  }

  /** Splits an optional leading '+' or '-' off: (is negative, rest). */
  function SplitSign(s: string): (bool, string) {
    if s != [] && (s[0] == '-' || s[0] == '+') then (s[0] == '-', s[1..]) else (false, s)
  }

  /** An optional sign followed by one or more digits, nothing else. */
  function SignedDigits(s: string): Option<int> {
    var (negative, digits) := SplitSign(s);
    if digits != [] && AllDigits(digits) then
      Some(if negative then -(DigitsValue(digits) as int) else DigitsValue(digits) as int)
    else None
  }

  /** int(text): surrounding whitespace, an optional sign and ASCII digits;
      anything else raises ValueError (None). */
  function ParseInt(text: string): Option<int> {
    SignedDigits(Strip(text))
  }

  // ---------------------------------------------------------------- float()

  function Scale(exponent: int): (r: real)
    ensures r > 0.0
  {
    if exponent >= 0 then Pow10(exponent) as real else 1.0 / (Pow10(-exponent) as real)
  }

  /** Digits with at most one decimal point and at least one digit. */
  function ParseMantissa(s: string): Option<real> {
    var dot := FirstIndexOf(s, '.');
    if dot == |s| then
      if s != [] && AllDigits(s) then Some(DigitsValue(s) as real) else None
    else
      var whole, fraction := s[..dot], s[dot + 1..];
      if AllDigits(whole) && AllDigits(fraction) && |whole| + |fraction| > 0 then
        Some(DigitsValue(whole) as real + (DigitsValue(fraction) as real) / (Pow10(|fraction|) as real))
      else None
  }

  /** Position of the exponent marker 'e' or 'E', or |s| when there is none. */
  function ExponentStart(s: string): (i: nat)
    ensures i <= |s|
    ensures i < |s| ==> s[i] == 'e' || s[i] == 'E'
    ensures forall k :: 0 <= k < i ==> s[k] != 'e' && s[k] != 'E'
  {
    if s == [] then 0 else if s[0] == 'e' || s[0] == 'E' then 0 else 1 + ExponentStart(s[1..])
  }

  /** float(text) on decimal literals: surrounding whitespace, an optional sign,
      a mantissa and an optional exponent; anything else raises ValueError (None). */
  function ParseFloat(text: string): Option<real> {
    var (negative, body) := SplitSign(Strip(text));
    var e := ExponentStart(body);
    match ParseMantissa(body[..e])
    case None => None
    case Some(m) =>
      var magnitude :=
        if e == |body| then Some(m)
        else match SignedDigits(body[e + 1..])
          case None => None
          case Some(x) => Some(m * Scale(x));
      match magnitude
      case None => None
      case Some(v) => Some(if negative then -v else v)
  }

  // ---------------------------------------------------------------- str(int)

  /** str(n) for n >= 0: decimal digits without leading zeros. */
  function NatToString(n: nat): (s: string)
    ensures s != [] && AllDigits(s)
  {
    if n < 10 then [DigitChar(n)] else NatToString(n / 10) + [DigitChar(n % 10)]
  }

  /** str(n) for a Python int. */
  function IntToString(n: int): (s: string)
    ensures s != []
    ensures forall i :: 0 <= i < |s| ==> IsDigit(s[i]) || (i == 0 && s[i] == '-')
  {
    if n < 0 then "-" + NatToString(-n) else NatToString(n)
  }

  lemma {:induction false} DigitsValueOfNatToString(n: nat)
    ensures DigitsValue(NatToString(n)) == n
  {
    if n >= 10 {
      DigitsValueOfNatToString(n / 10);
      var s := NatToString(n);
      assert s[..|s| - 1] == NatToString(n / 10);
    }
  }

  lemma IntToStringNoSpace(n: int)
    ensures NoSpace(IntToString(n))
    ensures '(' !in IntToString(n) && ')' !in IntToString(n) && '\n' !in IntToString(n)
    ensures '.' !in IntToString(n) && 'e' !in IntToString(n) && 'E' !in IntToString(n)
  {
    var s := IntToString(n);
    forall i | 0 <= i < |s| ensures !IsSpace(s[i]) && s[i] !in "()\n.eE" {
      assert IsDigit(s[i]) || s[i] == '-';
    }
  }

  /** int() reads back what str() writes: ParseInt(IntToString(n)) == n. */
  lemma ParseIntOfIntToString(n: int)
    ensures ParseInt(IntToString(n)) == Some(n)
  {
    IntToStringNoSpace(n);
    var m: nat := if n < 0 then -n else n;
    DigitsValueOfNatToString(m);
    if n < 0 {
      assert SplitSign(IntToString(n)) == (true, NatToString(m));
    } else {
      assert SplitSign(IntToString(n)) == (false, NatToString(m));
    }
  }

  // ---------------------------------------------------------------- split

  /** sep.join(parts) */
  function Join(parts: seq<string>, sep: char): string
    requires |parts| >= 1
  {
    if |parts| == 1 then parts[0] else parts[0] + [sep] + Join(parts[1..], sep)
  }

  /** str.split(sep): the pieces between occurrences of sep. There is one piece more
      than there are separators, none of them holds sep, the first runs up to the
      first sep, and joining them with sep gives s back. */
  function Split(s: string, sep: char): (parts: seq<string>)
    ensures |parts| >= 1
    ensures forall i :: 0 <= i < |parts| ==> sep !in parts[i]
    ensures parts[0] == s[..FirstIndexOf(s, sep)]
    ensures Join(parts, sep) == s
    decreases |s|
  {
    var i := FirstIndexOf(s, sep);
    if i == |s| then
      assert s[..i] == s;
      [s]
    else
      var rest := Split(s[i + 1..], sep);
      var parts := [s[..i]] + rest;
      assert parts[1..] == rest;
      assert s == s[..i] + [sep] + s[i + 1..];
      parts
  }

  /** text.split(',') has one piece more than text has commas. */
  lemma {:induction false} SplitCount(s: string, sep: char)
    ensures |Split(s, sep)| == 1 + multiset(s)[sep]
    decreases |s|
  {
    var i := FirstIndexOf(s, sep);
    if i == |s| {
      assert sep !in s;
    } else {
      var post := s[i + 1..];
      SplitCount(post, sep);
      assert |Split(s, sep)| == 1 + |Split(post, sep)|;
      CountAfterFirst(s, sep, i);
    }
  }

  /** Cutting s at its first sep leaves one sep fewer in the rest. */
  lemma CountAfterFirst(s: string, sep: char, i: nat)
    requires i < |s| && s[i] == sep && sep !in s[..i]
    ensures multiset(s)[sep] == 1 + multiset(s[i + 1..])[sep]
  {
    var pre, post := s[..i], s[i + 1..];
    assert s == pre + [sep] + post;
    assert multiset(s) == multiset(pre) + multiset{sep} + multiset(post);
  }

  /** The values of a list of optional values, if every one is present. */
  function Collect<T>(xs: seq<Option<T>>): (r: Option<seq<T>>)
    ensures r.Some? <==> forall i :: 0 <= i < |xs| ==> xs[i].Some?
    ensures r.Some? ==> |r.value| == |xs| && forall i :: 0 <= i < |xs| ==> xs[i] == Some(r.value[i])
  {
    if xs == [] then Some([])
    else match (xs[0], Collect(xs[1..]))
      case (Some(x), Some(rest)) => Some([x] + rest)
      case _ => None
  }

  /** list(map(float, parts)): every piece must parse, or the whole list is refused. */
  function ParseFloats(parts: seq<string>): (r: Option<seq<real>>)
    ensures r.Some? <==> forall i :: 0 <= i < |parts| ==> ParseFloat(parts[i]).Some?
    ensures r.Some? ==> |r.value| == |parts|
                        && forall i :: 0 <= i < |parts| ==> ParseFloat(parts[i]) == Some(r.value[i])
  {
    var parsed := seq(|parts|, i requires 0 <= i < |parts| => ParseFloat(parts[i]));
    assert forall i :: 0 <= i < |parts| ==> parsed[i] == ParseFloat(parts[i]);
    Collect(parsed)
  }

  // ---------------------------------------------------------------- sorted()

  predicate Ascending(s: seq<real>) {
    forall i, j :: 0 <= i < j < |s| ==> s[i] <= s[j]
  }

  function Insert(x: real, s: seq<real>): (r: seq<real>)
    requires Ascending(s)
    ensures Ascending(r) && multiset(r) == multiset(s) + multiset{x}
  {
    if s == [] || x <= s[0] then [x] + s
    else
      var tail := s[1..];
      var rest := Insert(x, tail);
      assert s == [s[0]] + tail;
      LowerBound(s[0], x, tail, rest);
      AscendingCons(s[0], rest);
      [s[0]] + rest
  }

  /** A bound below x and below every element of tail is below every element of a
      list holding x and the elements of tail. */
  lemma LowerBound(h: real, x: real, tail: seq<real>, rest: seq<real>)
    requires h <= x && forall k :: 0 <= k < |tail| ==> h <= tail[k]
    requires multiset(rest) == multiset(tail) + multiset{x}
    ensures forall k :: 0 <= k < |rest| ==> h <= rest[k]
  {
    forall k | 0 <= k < |rest| ensures h <= rest[k] {
      var y := rest[k];
      assert y in multiset(rest);
      if y != x {
        assert y in tail;
      }
    }
  }

  /** A value no larger than any element of an ascending list can go in front of it. */
  lemma AscendingCons(h: real, rest: seq<real>)
    requires Ascending(rest) && forall k :: 0 <= k < |rest| ==> h <= rest[k]
    ensures Ascending([h] + rest)
  {
    var r := [h] + rest;
    forall i, j | 0 <= i < j < |r| ensures r[i] <= r[j] {
      assert r[j] == rest[j - 1];
      if i > 0 {
        assert r[i] == rest[i - 1];
      }
    }
  }

  /** sorted(values) on a list of floats. */
  function SortAscending(s: seq<real>): (r: seq<real>)
    ensures Ascending(r) && multiset(r) == multiset(s)
  {
    if s == [] then []
    else
      assert s == [s[0]] + s[1..];
      Insert(s[0], SortAscending(s[1..]))
  }

  lemma HeadIsLeast(a: seq<real>, x: real)
    requires Ascending(a) && x in multiset(a)
    ensures a[0] <= x
  {
    assert x in a;
  }

  /** Two ascending lists holding the same values are the same list. */
  lemma {:induction false} AscendingUnique(a: seq<real>, b: seq<real>)
    requires Ascending(a) && Ascending(b) && multiset(a) == multiset(b)
    ensures a == b
  {
    assert |a| == |b| by {
      assert |multiset(a)| == |a| && |multiset(b)| == |b|;
    }
    if a != [] {
      HeadIsLeast(a, b[0]);
      HeadIsLeast(b, a[0]);
      var a', b' := a[1..], b[1..];
      assert a == [a[0]] + a';
      assert b == [b[0]] + b';
      assert multiset(a') == multiset(b') by {
        assert a[0] == b[0];
        assert multiset(a) == multiset{a[0]} + multiset(a');
        assert multiset(b) == multiset{b[0]} + multiset(b');
        assert multiset(a') == multiset(a) - multiset{a[0]};
        assert multiset(b') == multiset(b) - multiset{b[0]};
      }
      AscendingUnique(a', b');
    }
  }
}

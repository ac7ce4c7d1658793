/** C strings in buffers: strchr, strlen, decimal printing and strtol.

    A buffer is a `string`; the C string that starts at position `p` runs up to
    the first NUL at or after `p`, or to the end of the buffer.  `None` stands for
    the null pointer `strchr` returns when the character is not in the string. */
module CString {

  const NUL: char := '\0'

  datatype Option<+T> = None | Some(value: T) {
    predicate IsFailure() { None? }

    function PropagateFailure<U>(): Option<U>
      requires None?
    {
      None
    }

    function Extract(): T
      requires Some?
    {
      value
    }
  }

  // ---------------------------------------------------------------- strchr

  /** `i` is the first `c` of the C string that starts at `from`. */
  ghost predicate Hits(s: string, c: char, from: nat, i: int) {
    && from <= i < |s|
    && s[i] == c
    && forall j | from <= j < i :: s[j] != c && s[j] != NUL
  }

  function StrChr(s: string, c: char, from: nat): (r: Option<nat>)
    ensures r.Some? ==> from <= r.value < |s| && s[r.value] == c
    decreases |s| - from
  {
    if from >= |s| then None
    else if s[from] == c then Some(from)
    else if s[from] == NUL then None
    else StrChr(s, c, from + 1)
  }

  /** What `strchr` returns is the first occurrence. */
  lemma {:induction false} StrChrHits(s: string, c: char, from: nat)
    ensures StrChr(s, c, from).Some? ==> Hits(s, c, from, StrChr(s, c, from).value)
    decreases |s| - from
  {
    if from >= |s| || s[from] == c || s[from] == NUL {
    } else {
      StrChrHits(s, c, from + 1);
    }
  }

  /** And it returns every first occurrence. */
  lemma {:induction false} HitIsStrChr(s: string, c: char, from: nat, i: nat)
    requires Hits(s, c, from, i)
    ensures StrChr(s, c, from) == Some(i)
    decreases i - from
  {
    if from == i {
    } else {
      HitIsStrChr(s, c, from + 1, i);
    }
  }

  /** What `strchr` finds in a buffer it also finds when more bytes follow. */
  lemma StrChrExtends(s: string, t: string, c: char, from: nat)
    requires s <= t && StrChr(s, c, from).Some?
    ensures StrChr(t, c, from) == StrChr(s, c, from)
  {
    StrChrHits(s, c, from);
    HitIsStrChr(t, c, from, StrChr(s, c, from).value);
  }

  // ------------------------------------------------- reading a text in place

  /** The buffer `t` holds the text `w` at position `p`. */
  predicate At(t: string, p: nat, w: string) {
    p + |w| <= |t| && t[p..p + |w|] == w
  }

  lemma AtSplit(t: string, p: nat, a: string, b: string)
    ensures At(t, p, a + b) <==> At(t, p, a) && At(t, p + |a|, b)
  {
    if p + |a + b| <= |t| {
      assert t[p..p + |a + b|] == t[p..p + |a|] + t[p + |a|..p + |a| + |b|];
      assert (a + b)[..|a|] == a && (a + b)[|a|..] == b;
    }
  }

  lemma AtWhole(t: string)
    ensures At(t, 0, t)
  {
    assert t[0..|t|] == t;
  }

  lemma AtSplit3(t: string, p: nat, a: string, b: string, c: string)
    ensures At(t, p, a + b + c) <==> At(t, p, a) && At(t, p + |a|, b) && At(t, p + |a| + |b|, c)
  {
    AtSplit(t, p, a + b, c);
    AtSplit(t, p, a, b);
  }

  lemma AtSplit4(t: string, p: nat, a: string, b: string, c: string, d: string)
    ensures At(t, p, a + b + c + d) <==>
      At(t, p, a) && At(t, p + |a|, b) && At(t, p + |a| + |b|, c) && At(t, p + |a| + |b| + |c|, d)
  {
    AtSplit(t, p, a + b + c, d);
    AtSplit3(t, p, a, b, c);
  }

  /** `strchr` from the start of a word free of `c` stops at the delimiter behind it. */
  lemma StrChrBehind(t: string, c: char, p: nat, w: string, delimiter: string)
    requires At(t, p, w) && At(t, p + |w|, delimiter)
    requires delimiter != "" && delimiter[0] == c
    requires c !in w && NUL !in w
    ensures StrChr(t, c, p) == Some(p + |w|)
  {
    assert t[p + |w|] == t[p + |w|..p + |w| + |delimiter|][0];
    forall j | p <= j < p + |w| ensures t[j] != c && t[j] != NUL {
      assert t[j] == t[p..p + |w|][j - p];
    }
    HitIsStrChr(t, c, p, p + |w|);
  }

  lemma StrChrMisses(t: string, c: char, p: nat)
    requires p > |t| || c !in t[p..]
    ensures StrChr(t, c, p).None?
  {
    if p <= |t| {
      forall i | p <= i < |t| ensures t[i] != c {
        assert t[i] == t[p..][i - p];
      }
    }
  }

  lemma StrChrFinds(s: string, c: char, from: nat, i: nat)
    requires from <= i < |s| && s[i] == c && forall j | from <= j < |s| :: s[j] != NUL
    ensures StrChr(s, c, from).Some? && StrChr(s, c, from).value <= i
    decreases i - from
  {
    if s[from] == c {
    } else {
      StrChrFinds(s, c, from + 1, i);
    }
  }

  lemma StrChrFindsIn(s: string, c: char, from: nat, rest: string)
    requires from <= |s| && s[from..] == rest && c in rest && NUL !in rest
    ensures StrChr(s, c, from).Some?
  {
    hide StrChr;
    var i :| 0 <= i < |rest| && rest[i] == c;
    assert forall j | from <= j < |s| :: s[j] == rest[j - from];
    StrChrFinds(s, c, from, from + i);
  }

  // ---------------------------------------------------------------- strlen

  function StrLen(s: string, p: nat): (n: nat)
    requires p <= |s|
    ensures p + n <= |s|
    ensures forall i | p <= i < p + n :: s[i] != NUL
    ensures p + n == |s| || s[p + n] == NUL
    decreases |s| - p
  {
    if p == |s| || s[p] == NUL then 0 else 1 + StrLen(s, p + 1)
  }

  lemma StrLenAt(s: string, p: nat, w: string)
    requires At(s, p, w) && NUL !in w
    requires p + |w| == |s| || s[p + |w|] == NUL
    ensures StrLen(s, p) == |w|
  {
    forall i | p <= i < p + |w| ensures s[i] != NUL {
      assert s[i] == s[p..p + |w|][i - p];
    }
  }

  /** The C string at position `p`. */
  function CStr(s: string, p: nat): string
    requires p <= |s|
  {
    s[p..p + StrLen(s, p)]
  }

  // ------------------------------------------------------ sprintf %d, strtol

  predicate IsDigit(c: char) { '0' <= c <= '9' }

  function DigitChar(d: nat): char
    requires d < 10
  {
    "0123456789"[d]
  }

  function DigitValue(c: char): nat
    requires IsDigit(c)
  {
    c as int - '0' as int
  }

  predicate AllDigits(s: string) {
    forall i | 0 <= i < |s| :: IsDigit(s[i])
  }

  function Digits(n: nat): (s: string)
    ensures s != [] && AllDigits(s)
  {
    (if n < 10 then [] else Digits(n / 10)) + [DigitChar(n % 10)]
  }

  /** `sprintf("%d")`. */
  function Itoa(n: int): string {
    if n < 0 then "-" + Digits(-n) else Digits(n)
  }

  function DigitsValue(s: string): nat
    requires AllDigits(s)
  {
    if s == [] then 0
    else 10 * DigitsValue(s[..|s| - 1]) + DigitValue(s[|s| - 1])
  }

  /** Length of the longest prefix of digits. */
  function DigitPrefix(s: string): (n: nat)
    ensures n <= |s| && AllDigits(s[..n])
    ensures n == |s| || !IsDigit(s[n])
  {
    if s == [] || !IsDigit(s[0]) then 0
    else
      var n := 1 + DigitPrefix(s[1..]);
      assert forall i | 0 < i < n :: s[i] == s[1..][..n - 1][i - 1];
      n
  }

  function LeadingNumber(s: string): nat {
    DigitsValue(s[..DigitPrefix(s)])
  }

  /** `strtol` in base 10, on text without leading white space or '+'. */
  function StrToL(s: string): int {
    if s != [] && s[0] == '-' then -(LeadingNumber(s[1..]) as int)
    else LeadingNumber(s)
  }

  lemma {:induction false} DigitsValueOfDigits(n: nat)
    ensures DigitsValue(Digits(n)) == n
  {
    var s := Digits(n);
    assert DigitValue(DigitChar(n % 10)) == n % 10;
    assert s[|s| - 1] == DigitChar(n % 10);
    if n < 10 {
      assert s[..|s| - 1] == [];
    } else {
      DigitsValueOfDigits(n / 10);
      assert s[..|s| - 1] == Digits(n / 10);
    }
  }

  lemma LeadingNumberOfDigits(n: nat)
    ensures LeadingNumber(Digits(n)) == n
  {
    DigitsValueOfDigits(n);
    assert Digits(n)[..DigitPrefix(Digits(n))] == Digits(n);
  }

  /** `strtol` undoes `sprintf("%d")`, for every integer. */
  lemma StrToLOfItoa(n: int)
    ensures StrToL(Itoa(n)) == n
  {
    hide LeadingNumber;
    if n < 0 {
      LeadingNumberOfDigits(-n);
      assert Itoa(n)[1..] == Digits(-n);
    } else {
      LeadingNumberOfDigits(n);
      assert IsDigit(Digits(n)[0]);
    }
  }

  /** A decimal numeral without leading zeros. */
  predicate Canonical(s: string) {
    s != "" && AllDigits(s) && (s[0] == '0' ==> |s| == 1)
  }

  lemma {:induction false} DigitsAreCanonical(n: nat)
    ensures Canonical(Digits(n)) && (Digits(n)[0] == '0' <==> n == 0)
  {
    if n < 10 {
    } else {
      DigitsAreCanonical(n / 10);
      assert Digits(n)[0] == Digits(n / 10)[0];
    }
  }

  lemma {:induction false} FirstDigitCounts(s: string)
    requires s != "" && AllDigits(s) && s[0] != '0'
    ensures DigitsValue(s) > 0
  {
    if |s| == 1 {
    } else {
      FirstDigitCounts(s[..|s| - 1]);
    }
  }

  lemma CharOfValue(c: char)
    requires IsDigit(c)
    ensures DigitValue(c) < 10 && DigitChar(DigitValue(c)) == c
  {
  }

  lemma DigitsGrow(v: nat, d: nat)
    requires v > 0 && d < 10
    ensures Digits(10 * v + d) == Digits(v) + [DigitChar(d)]
  {
    assert (10 * v + d) / 10 == v && (10 * v + d) % 10 == d;
  }

  lemma {:induction false} CanonicalIsDigits(s: string)
    requires Canonical(s)
    ensures Digits(DigitsValue(s)) == s
  {
    hide Digits, DigitChar, DigitValue;
    var (front, c) := (s[..|s| - 1], s[|s| - 1]);
    assert s == front + [c];
    CharOfValue(c);
    if |s| == 1 {
      OneDigit(s);
    } else {
      FirstDigitCounts(front);
      CanonicalIsDigits(front);
      DigitsGrow(DigitsValue(front), DigitValue(c));
    }
  }

  lemma OneDigit(s: string)
    requires |s| == 1 && IsDigit(s[0])
    ensures Digits(DigitsValue(s)) == s
  {
    hide Digits, DigitChar, DigitValue;
    CharOfValue(s[0]);
    assert s[..0] == "" && DigitsValue("") == 0;
    DigitsStart(DigitValue(s[0]));
    assert s == [s[0]];
  }

  lemma DigitsStart(d: nat)
    requires d < 10
    ensures Digits(d) == [DigitChar(d)]
  {
    hide DigitChar;
    assert d % 10 == d;
  }

  /** What `sprintf("%d")` prints: the ten digits as themselves, no leading zero, and a
      sign exactly for negative numbers. */
  lemma ItoaIsDecimal(n: int)
    ensures 0 <= n < 10 ==> Itoa(n) == ["0123456789"[n]]
    ensures n >= 0 ==> AllDigits(Itoa(n)) && (Itoa(n) == "0" <==> n == 0)
    ensures n > 0 ==> Itoa(n)[0] != '0'
    ensures n < 0 ==> Itoa(n) == "-" + Itoa(-n)
  {
    if n >= 0 {
      DigitsAreCanonical(n);
    }
  }

  /** Every numeral without leading zeros is what is printed for its value. */
  lemma CanonicalIsItoa(s: string)
    requires Canonical(s)
    ensures Itoa(DigitsValue(s)) == s
  {
    CanonicalIsDigits(s);
  }

  lemma {:induction false} DigitPrefixStops(s: string, rest: string)
    requires AllDigits(s) && (rest == "" || !IsDigit(rest[0]))
    ensures DigitPrefix(s + rest) == |s|
  {
    if s == "" {
      assert s + rest == rest;
    } else {
      assert (s + rest)[1..] == s[1..] + rest;
      DigitPrefixStops(s[1..], rest);
    }
  }

  /** What `strtol` reads: the value of the leading digits, whatever follows them. */
  lemma StrToLReads(s: string, rest: string)
    requires AllDigits(s) && (rest == "" || !IsDigit(rest[0]))
    ensures s != "" ==> StrToL(s + rest) == DigitsValue(s)
    ensures StrToL("-" + s + rest) == 0 - DigitsValue(s)
  {
    hide DigitsValue, DigitPrefix;
    DigitPrefixStops(s, rest);
    assert (s + rest)[..|s|] == s;
    assert ("-" + s + rest)[1..] == s + rest;
    assert s != "" ==> (s + rest)[0] == s[0];
  }

  lemma {:induction false} DigitsLength(n: nat, k: nat, bound: nat)
    requires 0 < k && n < bound && bound == Power10(k)
    ensures |Digits(n)| <= k
  {
    if n < 10 {
    } else {
      DigitsLength(n / 10, k - 1, Power10(k - 1));
    }
  }

  function Power10(k: nat): nat {
    if k == 0 then 1 else 10 * Power10(k - 1)
  }

  /** Every 32-bit `int` prints into `char content_length[12]`, terminator included. */
  lemma ItoaFitsBuffer(n: int)
    requires -0x8000_0000 <= n < 0x8000_0000
    ensures |Itoa(n)| + 1 <= 12
    ensures forall c | c in Itoa(n) :: c == '-' || IsDigit(c)
    ensures n >= 0 ==> Canonical(Itoa(n))
    ensures n < 0 ==> Itoa(n)[0] == '-' && Canonical(Itoa(n)[1..]) && Itoa(n)[1] != '0'
  {
    DigitsAreCanonical(if n < 0 then -n else n);
    assert Power10(10) == 10_000_000_000;
    DigitsLength(if n < 0 then -n else n, 10, Power10(10));
  }
}

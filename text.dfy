/** The Python string operations the pipeline relies on: `str.strip`,
    `str.upper`, `str.split(sep)`, `sep.join`, `str.replace`, the `in`
    substring test and `int(str)`. Letters and digits are ASCII; the
    whitespace set of `str.strip` is exactly the one `str.isspace` accepts;
    `int()` accepts a smaller one around the number. */
module Text {
  import opened Wrappers

  /** The characters `str.isspace` (and hence `str.strip`) treat as whitespace. */
  predicate IsSpace(c: char) {
    var n := c as int;
    (9 <= n <= 13) || (28 <= n <= 32) || n == 0x85 || n == 0xA0 || n == 0x1680
    || (0x2000 <= n <= 0x200A) || n == 0x2028 || n == 0x2029 || n == 0x202F
    || n == 0x205F || n == 0x3000
  }

  /** Regular-expression `\d`, ASCII only. */
  predicate IsDigit(c: char) {
    '0' <= c <= '9'
  }

  /** Regular-expression `\w`, ASCII only. */
  predicate IsWordChar(c: char) {
    'a' <= c <= 'z' || 'A' <= c <= 'Z' || IsDigit(c) || c == '_'
  }

  predicate IsLower(c: char) {
    'a' <= c <= 'z'
  }

  function UpperChar(c: char): char {
    if IsLower(c) then (c as int - 32) as char else c
  }

  /** `str.upper()` on ASCII letters. */
  function Upper(s: string): (r: string)
    ensures |r| == |s|
    ensures forall i :: 0 <= i < |s| ==> r[i] == UpperChar(s[i])
  {
    if s == [] then [] else [UpperChar(s[0])] + Upper(s[1..])
  }

  /** Upper-casing leaves no lower-case letter behind and changes nothing else. */
  lemma UpperSpec(s: string)
    ensures forall i :: 0 <= i < |s| ==> !IsLower(Upper(s)[i])
    ensures forall i :: 0 <= i < |s| && !IsLower(s[i]) ==> Upper(s)[i] == s[i]
    ensures Upper(Upper(s)) == Upper(s)
  {
  }

  /** How many whitespace characters `s` starts with. */
  function LeadingSpace(s: string): (n: nat)
    ensures n <= |s|
    ensures forall i :: 0 <= i < n ==> IsSpace(s[i])
    ensures n == |s| || !IsSpace(s[n])
  {
    if s != [] && IsSpace(s[0]) then 1 + LeadingSpace(s[1..]) else 0
  }

  /** Where the trailing whitespace of `s` begins, looking no further left than `lo`. */
  function TrailingStart(s: string, lo: nat): (hi: nat)
    requires lo <= |s|
    ensures lo <= hi <= |s|
    ensures forall i :: hi <= i < |s| ==> IsSpace(s[i])
    ensures hi == lo || !IsSpace(s[hi - 1])
    decreases |s|
  {
    if |s| > lo && IsSpace(s[|s| - 1]) then TrailingStart(s[..|s| - 1], lo) else |s|
  }

  /** `str.strip()`: the slice of `s` between its leading and its trailing
      whitespace; it neither starts nor ends with whitespace. */
  function Strip(s: string): (r: string)
    ensures |r| <= |s|
    ensures r == [] || (!IsSpace(r[0]) && !IsSpace(r[|r| - 1]))
  {
    var lo := LeadingSpace(s);
    var hi := TrailingStart(s, lo);
    assert lo < |s| ==> lo < hi;
    s[lo..hi]
  }

  predicate IsBlank(s: string) {
    forall i :: 0 <= i < |s| ==> IsSpace(s[i])
  }

  /** A line strips to nothing exactly when it is all whitespace. */
  lemma StripEmptyIffBlank(s: string)
    ensures Strip(s) == [] <==> IsBlank(s)
  {
    var lo := LeadingSpace(s);
    if lo < |s| {
      assert lo < TrailingStart(s, lo);
    }
  }

  /** Whitespace around text that has none at its ends is exactly what strip removes. */
  lemma StripSurrounded(pre: string, core: string, post: string)
    requires IsBlank(pre) && IsBlank(post)
    requires core == [] || (!IsSpace(core[0]) && !IsSpace(core[|core| - 1]))
    ensures core != [] ==> Strip(pre + core + post) == core
    ensures core != [] ==> LeadingSpace(pre + core + post) == |pre|
    ensures core != [] ==> TrailingStart(pre + core + post, |pre|) == |pre| + |core|
  {
    if core != [] {
      SurroundedBounds(pre, core, post);
      var s := pre + core + post;
      assert s[|pre|..|pre| + |core|] == core;
    }
  }

  /** Where strip cuts text padded with whitespace. */
  lemma {:induction false} SurroundedBounds(pre: string, core: string, post: string)
    requires IsBlank(pre) && IsBlank(post)
    requires core != [] && !IsSpace(core[0]) && !IsSpace(core[|core| - 1])
    ensures LeadingSpace(pre + core + post) == |pre|
    ensures TrailingStart(pre + core + post, |pre|) == |pre| + |core|
  {
    var s := pre + core + post;
    var p, q := |pre|, |pre| + |core|;
    assert s[p] == core[0] && s[q - 1] == core[|core| - 1];
    var lo := LeadingSpace(s);
    assert lo == p;
    var hi := TrailingStart(s, lo);
    assert hi == q;
  }

  /** Text that neither starts nor ends with whitespace is left as it is. */
  lemma StripKeeps(s: string)
    requires s == [] || (!IsSpace(s[0]) && !IsSpace(s[|s| - 1]))
    ensures Strip(s) == s
  {
    if s != [] {
      StripSurrounded([], s, []);
      assert [] + s + [] == s;
    }
  }

  /** Stripping twice is stripping once. */
  lemma StripIdempotent(s: string)
    ensures Strip(Strip(s)) == Strip(s)
  {
    StripKeeps(Strip(s));
  }

  // ----- substring search, split, join, replace -----

  /** Python's `sub in s`. */
  predicate Contains(s: string, sub: string)
    decreases |s|
  {
    |sub| <= |s| && (s[..|sub|] == sub || Contains(s[1..], sub))
  }

  predicate OccursAt(s: string, sub: string, i: int) {
    0 <= i && i + |sub| <= |s| && s[i..i + |sub|] == sub
  }

  /** `Contains` is the existence of a position where `sub` occurs. */
  lemma {:induction false} ContainsIff(s: string, sub: string)
    ensures Contains(s, sub) <==> exists i :: OccursAt(s, sub, i)
    decreases |s|
  {
    if sub == [] {
      assert OccursAt(s, sub, 0);
    } else if |sub| <= |s| {
      ContainsIff(s[1..], sub);
      if s[..|sub|] == sub {
        assert OccursAt(s, sub, 0);
      } else if Contains(s[1..], sub) {
        var i :| OccursAt(s[1..], sub, i);
        assert s[1..][i..i + |sub|] == s[i + 1..i + 1 + |sub|];
        assert OccursAt(s, sub, i + 1);
      } else {
        forall i | OccursAt(s, sub, i) ensures false {
          if i > 0 {
            assert s[1..][i - 1..i - 1 + |sub|] == s[i..i + |sub|];
            assert OccursAt(s[1..], sub, i - 1);
          }
        }
      }
    } else {
      forall i | OccursAt(s, sub, i) ensures false { }
    }
  }

  /** A text lacking one of the characters of `sub` cannot contain `sub`. */
  lemma MissingCharNotContained(s: string, sub: string, k: nat)
    requires k < |sub| && sub[k] !in s
    ensures !Contains(s, sub)
  {
    forall i | 0 <= i && i + |sub| <= |s|
      ensures !OccursAt(s, sub, i)
    {
      assert s[i..i + |sub|][k] == s[i + k];
    }
    ContainsIff(s, sub);
  }

  /** Python's `s.split(sep)`: cut at every occurrence of `sep`, scanning left
      to right and resuming after each cut (occurrences never overlap). */
  function Split(s: string, sep: string): (parts: seq<string>)
    requires sep != []
    ensures |parts| >= 1
    decreases |s|
  {
    if |s| < |sep| then [s]
    else if s[..|sep|] == sep then [[]] + Split(s[|sep|..], sep)
    else
      var rest := Split(s[1..], sep);
      [[s[0]] + rest[0]] + rest[1..]
  }

  /** Python's `sep.join(parts)`. */
  function Join(parts: seq<string>, sep: string): string
    decreases |parts|
  {
    if parts == [] then []
    else if |parts| == 1 then parts[0]
    else parts[0] + sep + Join(parts[1..], sep)
  }

  /** Joining the pieces of a split with the same separator gives back the text. */
  lemma {:induction false} JoinSplit(s: string, sep: string)
    requires sep != []
    ensures Join(Split(s, sep), sep) == s
    decreases |s|
  {
    if |s| < |sep| {
    } else if s[..|sep|] == sep {
      var rest := s[|sep|..];
      JoinSplit(rest, sep);
      SplitAtStart(s, sep);
      JoinCons([], Split(rest, sep), sep);
      assert s == sep + rest;
    } else {
      JoinSplit(s[1..], sep);
      SplitPastStart(s, sep);
      JoinPrepend(s[0], Split(s[1..], sep), sep);
      assert s == [s[0]] + s[1..];
    }
  }

  lemma SplitAtStart(s: string, sep: string)
    requires sep != [] && |sep| <= |s| && s[..|sep|] == sep
    ensures Split(s, sep) == [[]] + Split(s[|sep|..], sep)
  {
  }

  lemma SplitPastStart(s: string, sep: string)
    requires sep != [] && |sep| <= |s| && s[..|sep|] != sep
    ensures var rest := Split(s[1..], sep);
      Split(s, sep) == [[s[0]] + rest[0]] + rest[1..]
  {
  }

  lemma JoinCons(p: string, parts: seq<string>, sep: string)
    requires |parts| >= 1
    ensures Join([p] + parts, sep) == p + sep + Join(parts, sep)
  {
    assert ([p] + parts)[1..] == parts;
  }

  /** A character added in front of the first piece lands in front of the join. */
  lemma JoinPrepend(c: char, parts: seq<string>, sep: string)
    requires |parts| >= 1
    ensures Join([[c] + parts[0]] + parts[1..], sep) == [c] + Join(parts, sep)
  {
    var ps := [[c] + parts[0]] + parts[1..];
    assert ps[1..] == parts[1..];
    if |parts| > 1 {
      assert Join(ps, sep) == ([c] + parts[0]) + sep + Join(parts[1..], sep);
      assert Join(parts, sep) == parts[0] + sep + Join(parts[1..], sep);
    }
  }

  /** No piece of a split contains the separator. */
  lemma {:induction false} SplitPiecesFree(s: string, sep: string)
    requires sep != []
    ensures forall k :: 0 <= k < |Split(s, sep)| ==> !Contains(Split(s, sep)[k], sep)
    decreases |s|
  {
    if |s| < |sep| {
      assert !Contains(s, sep);
    } else if s[..|sep|] == sep {
      SplitPiecesFree(s[|sep|..], sep);
      assert !Contains([], sep);
    } else {
      var rest := Split(s[1..], sep);
      SplitPiecesFree(s[1..], sep);
      SplitHeadIsPrefix(s[1..], sep);
      var h := [s[0]] + rest[0];
      assert h[1..] == rest[0];
      if |sep| <= |h| {
        assert h[..|sep|] == [s[0]] + rest[0][..|sep| - 1];
        assert s[..|sep|] == [s[0]] + s[1..][..|sep| - 1];
      }
    }
  }

  /** The first piece of a split is a prefix of the text. */
  lemma {:induction false} SplitHeadIsPrefix(s: string, sep: string)
    requires sep != []
    ensures |Split(s, sep)[0]| <= |s| && Split(s, sep)[0] == s[..|Split(s, sep)[0]|]
    decreases |s|
  {
    if |s| < |sep| {
    } else if s[..|sep|] == sep {
    } else {
      SplitHeadIsPrefix(s[1..], sep);
      var h := Split(s[1..], sep)[0];
      assert [s[0]] + s[1..][..|h|] == s[..|h| + 1];
    }
  }

  /** Splitting text that does not contain the separator yields the text alone. */
  lemma {:induction false} SplitWithout(s: string, sep: string)
    requires sep != [] && !Contains(s, sep)
    ensures Split(s, sep) == [s]
    decreases |s|
  {
    if |s| >= |sep| {
      SplitWithout(s[1..], sep);
      assert [s[0]] + s[1..] == s;
    }
  }

  /** When no occurrence of `sep` starts inside `a`, the split of
      `a + sep + b` is `a` followed by the split of `b`. */
  lemma {:induction false} SplitAtFirst(a: string, sep: string, b: string)
    requires sep != [] && !Contains(a + sep[..|sep| - 1], sep)
    ensures Split(a + sep + b, sep) == [a] + Split(b, sep)
    decreases |a|
  {
    var s := a + sep + b;
    if a == [] {
      assert s[..|sep|] == sep && s[|sep|..] == b;
      SplitAtStart(s, sep);
    } else {
      var x := a + sep[..|sep| - 1];
      assert x[..|sep|] == s[..|sep|];
      assert x[1..] == a[1..] + sep[..|sep| - 1];
      SplitAtFirst(a[1..], sep, b);
      DropFirst(a, sep, b);
      SplitPastStart(s, sep);
      assert [a[0]] + a[1..] == a;
    }
  }

  lemma DropFirst(a: string, sep: string, b: string)
    requires a != []
    ensures (a + sep + b)[1..] == a[1..] + sep + b
  {
  }

  /** Python's `s.replace(old, new)`, which is `new.join(s.split(old))`. */
  function Replace(s: string, pattern: string, with: string): string
    requires pattern != []
  {
    Join(Split(s, pattern), with)
  }

  /** Replacing something that does not occur changes nothing. */
  lemma ReplaceAbsent(s: string, pattern: string, with: string)
    requires pattern != [] && !Contains(s, pattern)
    ensures Replace(s, pattern, with) == s
  {
    SplitWithout(s, pattern);
  }

  // ----- decimal numbers and int() -----

  function DigitValue(c: char): nat
    requires IsDigit(c)
  {
    c as int - '0' as int
  }

  function DigitChar(d: nat): (c: char)
    requires d < 10
    ensures IsDigit(c) && DigitValue(c) == d
  {
    ('0' as int + d) as char
  }

  predicate AllDigits(s: string) {
    forall i :: 0 <= i < |s| ==> IsDigit(s[i])
  }

  /** The value of a run of decimal digits, most significant first. */
  function DecimalValue(s: string): nat
    requires AllDigits(s)
    decreases |s|
  {
    if s == [] then 0 else DecimalValue(s[..|s| - 1]) * 10 + DigitValue(s[|s| - 1])
  }

  /** The shortest decimal rendering of a natural number (Python's `str(n)`). */
  function Decimal(n: nat): (r: string)
    ensures r != [] && AllDigits(r)
    decreases n
  {
    if n < 10 then [DigitChar(n)] else Decimal(n / 10) + [DigitChar(n % 10)]
  }

  /** Reading back a rendered number gives the number. */
  lemma {:induction false} DecimalRoundTrip(n: nat)
    ensures DecimalValue(Decimal(n)) == n
    decreases n
  {
    if n >= 10 {
      DecimalRoundTrip(n / 10);
      var r := Decimal(n);
      assert r[..|r| - 1] == Decimal(n / 10);
    }
  }

  /** The digits `int()` accepts: ASCII digits, with single underscores
      allowed between two digits. */
  predicate IsDigitGroups(s: string) {
    && s != []
    && (forall i :: 0 <= i < |s| ==> IsDigit(s[i]) || s[i] == '_')
    && IsDigit(s[0]) && IsDigit(s[|s| - 1])
    && (forall i :: 0 < i < |s| ==> s[i - 1] != '_' || s[i] != '_')
  }

  function DropUnderscores(s: string): (r: string)
    requires forall i :: 0 <= i < |s| ==> IsDigit(s[i]) || s[i] == '_'
    ensures AllDigits(r) && |r| <= |s|
    ensures AllDigits(s) ==> r == s
  {
    if s == [] then []
    else if s[0] == '_' then DropUnderscores(s[1..])
    else [s[0]] + DropUnderscores(s[1..])
  }

  /** The whitespace `int()` skips around the number: the ASCII characters
      tab, line feed, vertical tab, form feed, carriage return and space, and
      the non-ASCII characters `str.isspace` accepts. The ASCII separators
      U+001C to U+001F are whitespace to `str.strip` but not to `int()`. */
  predicate IsIntSpace(c: char) {
    var n := c as int;
    (9 <= n <= 13) || n == 32 || (n >= 128 && IsSpace(c))
  }

  predicate IsIntBlank(s: string) {
    forall i :: 0 <= i < |s| ==> IsIntSpace(s[i])
  }

  /** The whitespace `str.strip` would remove from `s` is all whitespace to `int()`. */
  predicate IntPadded(s: string) {
    var lo := LeadingSpace(s);
    var hi := TrailingStart(s, lo);
    IsIntBlank(s[..lo]) && IsIntBlank(s[hi..])
  }

  /** Python's `int(s)` for base 10: surrounding whitespace, an optional sign,
      then digit groups; anything else is a `ValueError`, here `None`. */
  function ParseInt(s: string): Option<int> {
    if IntPadded(s) then ParseSigned(Strip(s)) else None
  }

  /** `int()` once the surrounding whitespace is gone. */
  function ParseSigned(t: string): Option<int> {
    if t != [] && (t[0] == '+' || t[0] == '-') then
      var body := t[1..];
      if IsDigitGroups(body) then
        var v: int := DecimalValue(DropUnderscores(body));
        Some(if t[0] == '-' then -v else v)
      else None
    else if IsDigitGroups(t) then Some(DecimalValue(DropUnderscores(t)))
    else None
  }

  /** Dropping underscores works piece by piece, so the digits keep their order. */
  lemma {:induction false} DropUnderscoresAppend(a: string, b: string)
    requires forall i :: 0 <= i < |a| ==> IsDigit(a[i]) || a[i] == '_'
    requires forall i :: 0 <= i < |b| ==> IsDigit(b[i]) || b[i] == '_'
    ensures DropUnderscores(a + b) == DropUnderscores(a) + DropUnderscores(b)
    decreases |a|
  {
    if a == [] {
      assert a + b == b;
    } else {
      var c, rest := a[0], a[1..];
      assert a == [c] + rest && a + b == [c] + (rest + b);
      var h := if c == '_' then [] else [c];
      DropUnderscoresAppend(rest, b);
      DropUnderscoresCons(c, rest);
      assert DropUnderscores(a) == h + DropUnderscores(rest);
      DropUnderscoresCons(c, rest + b);
      assert DropUnderscores(a + b) == h + DropUnderscores(rest + b);
      ConcatAssoc(h, DropUnderscores(rest), DropUnderscores(b));
    }
  }

  lemma ConcatAssoc(x: string, y: string, z: string)
    ensures x + (y + z) == x + y + z
  {
  }

  lemma DropUnderscoresCons(c: char, s: string)
    requires IsDigit(c) || c == '_'
    requires forall i :: 0 <= i < |s| ==> IsDigit(s[i]) || s[i] == '_'
    ensures DropUnderscores([c] + s) == (if c == '_' then [] else [c]) + DropUnderscores(s)
  {
    assert ([c] + s)[0] == c && ([c] + s)[1..] == s;
  }

  /** An underscore between two digit groups is dropped and nothing else is. */
  lemma DropUnderscoresAtSeparator(a: string, b: string)
    requires forall i :: 0 <= i < |a| ==> IsDigit(a[i]) || a[i] == '_'
    requires forall i :: 0 <= i < |b| ==> IsDigit(b[i]) || b[i] == '_'
    ensures DropUnderscores(a + "_" + b) == DropUnderscores(a) + DropUnderscores(b)
  {
    var u := "_";
    assert DropUnderscores(u) == [] by {
      assert u[0] == '_' && u[1..] == [];
    }
    DropUnderscoresAppend(a, u);
    assert DropUnderscores(a + u) == DropUnderscores(a);
    DropUnderscoresAppend(a + u, b);
  }

  /** `int()` reads two digit groups joined by an underscore as the number
      their digits spell. */
  lemma ParseIntDigitGroups(a: string, b: string)
    requires a != [] && b != [] && AllDigits(a) && AllDigits(b)
    ensures ParseInt(a + "_" + b) == Some(DecimalValue(a + b))
  {
    var s := a + "_" + b;
    JoinedGroups(a, b);
    ParseIntKeeps(s);
    ParseSignedGroups(s);
    DropUnderscoresAtSeparator(a, b);
  }

  lemma JoinedGroups(a: string, b: string)
    requires a != [] && b != [] && AllDigits(a) && AllDigits(b)
    ensures IsDigitGroups(a + "_" + b)
  {
    var s := a + "_" + b;
    forall i | 0 < i < |s| ensures s[i - 1] != '_' || s[i] != '_' {
      if i - 1 < |a| {
        assert s[i - 1] == a[i - 1];
      } else {
        assert s[i] == b[i - 1 - |a|];
      }
    }
    assert s[0] == a[0] && s[|s| - 1] == b[|b| - 1];
  }

  lemma ParseSignedGroups(t: string)
    requires IsDigitGroups(t)
    ensures ParseSigned(t) == Some(DecimalValue(DropUnderscores(t)))
  {
    assert IsDigit(t[0]);
  }

  /** `int("1_000")` is 1000. */
  lemma UnderscoreExample(a: string, b: string)
    requires a == "1" && b == "000"
    ensures ParseInt(a + "_" + b) == Some(1000)
  {
    ParseIntDigitGroups(a, b);
    Thousand(a + b);
  }

  lemma Thousand(t: string)
    requires t == "1000"
    ensures DecimalValue(t) == 1000
  {
    var t1, t2, t3 := t[..1], t[..2], t[..3];
    assert t1[..0] == [] && t2[..1] == t1 && t3[..2] == t2;
    assert DecimalValue(t1) == 1;
    assert DecimalValue(t2) == 10;
    assert DecimalValue(t3) == 100;
    assert t[..|t| - 1] == t3;
  }

  /** Python's `str(n)` for an integer. */
  function IntText(n: int): (r: string)
    ensures r != [] && !IsSpace(r[0]) && !IsSpace(r[|r| - 1])
  {
    if n < 0 then "-" + Decimal(-n) else Decimal(n)
  }

  /** `int()` reads back `str(n)`. */
  lemma ParseIntText(n: int)
    ensures ParseSigned(IntText(n)) == Some(n)
  {
    var t := IntText(n);
    var m: nat := if n < 0 then -n else n;
    DecimalRoundTrip(m);
    var d := Decimal(m);
    assert DropUnderscores(d) == d;
    if n < 0 {
      assert t[0] == '-' && t[1..] == d;
    } else {
      assert t == d && IsDigit(t[0]);
    }
  }

  /** Text without whitespace at either end is read by `int()` as it is. */
  lemma ParseIntKeeps(s: string)
    requires s == [] || (!IsSpace(s[0]) && !IsSpace(s[|s| - 1]))
    ensures ParseInt(s) == ParseSigned(s)
  {
    StripKeeps(s);
    if s != [] {
      assert LeadingSpace(s) == 0;
      assert TrailingStart(s, 0) == |s|;
      assert s[..0] == [] && s[|s|..] == [];
    }
  }

  /** `int()` reads back `str(n)` whatever whitespace `int()` skips surrounds it. */
  lemma ParseIntRoundTrip(n: int, pre: string, post: string)
    requires IsIntBlank(pre) && IsIntBlank(post)
    ensures ParseInt(pre + IntText(n) + post) == Some(n)
  {
    var t := IntText(n);
    var s := pre + t + post;
    assert IsBlank(pre) && IsBlank(post);
    StripSurrounded(pre, t, post);
    assert s[..|pre|] == pre && s[|pre| + |t|..] == post;
    ParseIntText(n);
  }

  /** A separator character that `str.strip` removes makes `int()` fail. */
  lemma ParseIntRejectsSeparator(d: string, c: char)
    requires d != [] && AllDigits(d) && 28 <= c as int <= 31
    ensures Strip(d + [c]) == d
    ensures ParseInt(d + [c]) == None
  {
    var s := d + [c];
    assert s == [] + d + [c];
    assert IsSpace(c) && !IsSpace(d[0]) && !IsSpace(d[|d| - 1]);
    StripSurrounded([], d, [c]);
    NotIntPadded(s, |d|);
  }

  /** Text whose trailing whitespace starts at `hi` with a character `int()`
      does not skip is not padded as `int()` requires. */
  lemma NotIntPadded(s: string, hi: nat)
    requires hi < |s| && TrailingStart(s, LeadingSpace(s)) == hi && !IsIntSpace(s[hi])
    ensures !IntPadded(s)
  {
    assert s[hi..][0] == s[hi];
  }
}

/** Strings and integers as the controller's Python code handles them:
    substring search, `str.split(sep)`, `sep.join(parts)`, `str.strip()`,
    `int(s)` on a decimal string and `str(n)` on an integer. */
module Text {

  datatype Option<+T> = None | Some(value: T)

  /** `sub` occurs in `s` starting at index `i`. */
  predicate OccursAt(s: string, sub: string, i: nat)
  {
    i + |sub| <= |s| && s[i..i + |sub|] == sub
  }

  ghost predicate Contains(s: string, sub: string)
  {
    exists i: nat :: OccursAt(s, sub, i)
  }

  predicate StartsWith(s: string, prefix: string)
  {
    OccursAt(s, prefix, 0)
  }

  /** The first position from `from` on at which `sub` occurs in `s`. */
  function IndexFrom(s: string, sub: string, from: nat): (r: Option<nat>)
    ensures r.Some? ==> from <= r.value && OccursAt(s, sub, r.value)
    ensures r.Some? ==> forall j: nat :: from <= j < r.value ==> !OccursAt(s, sub, j)
    ensures r.None? ==> forall j: nat :: from <= j ==> !OccursAt(s, sub, j)
    decreases |s| - from
  {
    if |s| < from + |sub| then None
    else if OccursAt(s, sub, from) then Some(from)
    else IndexFrom(s, sub, from + 1)
  }

  /** The first position at which `sub` occurs in `s` (Python's `s.find(sub)`,
      with None for -1). */
  function IndexOf(s: string, sub: string): (r: Option<nat>)
    ensures r.Some? ==> OccursAt(s, sub, r.value)
    ensures r.Some? ==> forall j: nat :: j < r.value ==> !OccursAt(s, sub, j)
    ensures r.None? ==> forall j: nat :: !OccursAt(s, sub, j)
  {
    IndexFrom(s, sub, 0)
  }

  lemma {:induction false} OccursAtSingle(s: string, c: char, j: nat)
    ensures OccursAt(s, [c], j) <==> j < |s| && s[j] == c
  {
    if j < |s| {
      assert s[j..j + 1] == [s[j]];
    }
  }

  /** Python's `s.split(sep)` for a non-empty separator: the pieces between
      successive leftmost non-overlapping occurrences of `sep`. */
  function Split(s: string, sep: string): (parts: seq<string>)
    requires sep != []
    ensures parts != []
    decreases |s|
  {
    match IndexOf(s, sep)
    case None => [s]
    case Some(i) => [s[..i]] + Split(s[i + |sep|..], sep)
  }

  /** The text before the first occurrence holds no occurrence. */
  lemma BeforeFirstFree(s: string, sep: string, i: nat)
    requires sep != [] && IndexOf(s, sep) == Some(i)
    ensures !Contains(s[..i], sep)
  {
    forall j: nat ensures !OccursAt(s[..i], sep, j) {
      if j + |sep| <= i {
        assert !OccursAt(s, sep, j);
        assert s[..i][j..j + |sep|] == s[j..j + |sep|];
      }
    }
  }

  /** No piece of a split contains the separator. */
  lemma {:induction false} SplitPiecesFree(s: string, sep: string)
    requires sep != []
    ensures forall k :: 0 <= k < |Split(s, sep)| ==> !Contains(Split(s, sep)[k], sep)
    decreases |s|
  {
    match IndexOf(s, sep)
    case None =>
    case Some(i) =>
      BeforeFirstFree(s, sep, i);
      SplitPiecesFree(s[i + |sep|..], sep);
      SplitAt(s, sep, i);
  }

  /** Python's `sep.join(parts)`. */
  function Join(parts: seq<string>, sep: string): string
  {
    if |parts| == 0 then ""
    else if |parts| == 1 then parts[0]
    else parts[0] + sep + Join(parts[1..], sep)
  }

  /** Joining the pieces of a split with the same separator gives back the text. */
  lemma {:induction false} JoinSplit(s: string, sep: string)
    requires sep != []
    ensures Join(Split(s, sep), sep) == s
    decreases |s|
  {
    match IndexOf(s, sep)
    case None =>
    case Some(i) =>
      var rest := s[i + |sep|..];
      JoinSplit(rest, sep);
      var parts := Split(s, sep);
      assert parts == [s[..i]] + Split(rest, sep);
      assert parts[1..] == Split(rest, sep);
      assert s == s[..i] + sep + rest;
  }

  /** Splitting a join gives back the pieces, provided no piece contains the
      separator's first character (so that no occurrence of the separator can
      begin inside a piece). */
  lemma {:induction false} SplitJoin(parts: seq<string>, sep: string)
    requires sep != [] && parts != []
    requires forall k :: 0 <= k < |parts| ==> sep[0] !in parts[k]
    ensures Split(Join(parts, sep), sep) == parts
  {
    var p := parts[0];
    if |parts| == 1 {
      match IndexOf(p, sep)
      case None =>
      case Some(r) =>
        assert false;
    } else {
      var rest := Join(parts[1..], sep);
      var s := p + sep + rest;
      assert Join(parts, sep) == s;
      assert OccursAt(s, sep, |p|) by {
        assert s[|p|..|p| + |sep|] == sep;
      }
      match IndexOf(s, sep)
      case None =>
        assert false;
      case Some(r) =>
        assert r == |p|;
        assert s[..r] == p;
        assert s[r + |sep|..] == rest;
        SplitJoin(parts[1..], sep);
        assert Split(s, sep) == [p] + parts[1..];
    }
  }

  /** `IndexOf` finds an occurrence with none before it. */
  lemma IndexOfIs(s: string, sub: string, i: nat)
    requires OccursAt(s, sub, i)
    requires forall j: nat :: j < i ==> !OccursAt(s, sub, j)
    ensures IndexOf(s, sub) == Some(i)
  {
  }

  /** How `Split` proceeds at the first occurrence of the separator. */
  lemma SplitAt(s: string, sep: string, i: nat)
    requires sep != [] && IndexOf(s, sep) == Some(i)
    ensures i + |sep| <= |s|
    ensures Split(s, sep) == [s[..i]] + Split(s[i + |sep|..], sep)
  {
  }

  lemma SplitNone(s: string, sep: string)
    requires sep != [] && IndexOf(s, sep) == None
    ensures Split(s, sep) == [s]
  {
  }

  /** Before the end of `a`, the one-character separator occurs in
      `a + [c] + b` exactly where it occurs in `a`. */
  lemma OccursInPrefix(a: string, c: char, b: string)
    ensures forall j: nat :: j < |a| ==> (OccursAt(a + [c] + b, [c], j) <==> OccursAt(a, [c], j))
    ensures OccursAt(a + [c] + b, [c], |a|)
  {
    var s := a + [c] + b;
    OccursAtSingle(s, c, |a|);
    forall j: nat | j < |a|
      ensures OccursAt(s, [c], j) <==> OccursAt(a, [c], j)
    {
      OccursAtSingle(s, c, j);
      OccursAtSingle(a, c, j);
    }
  }

  /** Cutting `a + [c] + b` around a position inside `a`. */
  lemma SliceAround(a: string, c: char, b: string, i: nat)
    requires i < |a|
    ensures (a + [c] + b)[..i] == a[..i]
    ensures (a + [c] + b)[i + 1..] == a[i + 1..] + [c] + b
  {
  }

  /** When `a` holds no separator, the first cut of `a + [c] + b` is right
      after `a`. */
  lemma SplitAroundFirst(a: string, c: char, b: string)
    requires IndexOf(a, [c]) == None
    ensures Split(a + [c] + b, [c]) == Split(a, [c]) + Split(b, [c])
  {
    var s := a + [c] + b;
    OccursInPrefix(a, c, b);
    IndexOfIs(s, [c], |a|);
    SplitAt(s, [c], |a|);
    SplitNone(a, [c]);
    assert s[..|a|] == a && s[|a| + 1..] == b;
  }

  /** When the first separator of `a` is at `i`, the first cut of
      `a + [c] + b` is there too. */
  lemma FirstCut(a: string, c: char, b: string, i: nat)
    requires IndexOf(a, [c]) == Some(i)
    ensures i < |a|
    ensures Split(a + [c] + b, [c]) == [a[..i]] + Split(a[i + 1..] + [c] + b, [c])
  {
    var s := a + [c] + b;
    OccursInPrefix(a, c, b);
    IndexOfIs(s, [c], i);
    SplitAt(s, [c], i);
    SliceAround(a, c, b, i);
  }

  /** ... and the rest is the same problem on what follows that cut. */
  lemma SplitAroundAt(a: string, c: char, b: string, i: nat)
    requires IndexOf(a, [c]) == Some(i)
    requires Split(a[i + 1..] + [c] + b, [c]) == Split(a[i + 1..], [c]) + Split(b, [c])
    ensures Split(a + [c] + b, [c]) == Split(a, [c]) + Split(b, [c])
  {
    FirstCut(a, c, b, i);
    SplitAt(a, [c], i);
    Regroup([a[..i]], Split(a[i + 1..], [c]), Split(b, [c]));
  }

  /** Re-brackets the pieces around one cut; kept apart because the same
      fact about local variables costs the solver far more in place. */
  lemma Regroup(head: seq<string>, rest: seq<string>, tail: seq<string>)
    ensures head + (rest + tail) == (head + rest) + tail
  {
  }

  /** Splitting on a one-character separator cuts at every occurrence, so
      the text on either side of one occurrence splits on its own. */
  lemma {:induction false} SplitAround(a: string, c: char, b: string)
    ensures Split(a + [c] + b, [c]) == Split(a, [c]) + Split(b, [c])
    decreases |a|
  {
    match IndexOf(a, [c]) {
      case None =>
        SplitAroundFirst(a, c, b);
      case Some(i) =>
        SplitAround(a[i + 1..], c, b);
        SplitAroundAt(a, c, b, i);
    }
  }

  /** The whitespace Python's `str.strip()` removes from a byte string. */
  predicate IsSpace(c: char)
  {
    c == ' ' || c == '\t' || c == '\n' || c == '\r' || c as int == 11 || c as int == 12
  }

  predicate IsDigit(c: char)
  {
    '0' <= c <= '9'
  }

  /** Nothing but whitespace; the empty string included. */
  predicate AllSpace(s: string)
  {
    forall i :: 0 <= i < |s| ==> IsSpace(s[i])
  }

  predicate AllDigits(s: string)
  {
    forall i :: 0 <= i < |s| ==> IsDigit(s[i])
  }

  /** `s.lstrip()`: the suffix left once the leading whitespace is gone. */
  function TrimLeft(s: string): (t: string)
    ensures |t| <= |s| && t == s[|s| - |t|..]
    ensures AllSpace(s[..|s| - |t|])
    ensures t == [] || !IsSpace(t[0])
  {
    if s != [] && IsSpace(s[0]) then TrimLeft(s[1..]) else s
  }

  /** `s.rstrip()`: the prefix left once the trailing whitespace is gone. */
  function TrimRight(s: string): (t: string)
    ensures |t| <= |s| && t == s[..|t|]
    ensures AllSpace(s[|t|..])
    ensures t == [] || !IsSpace(t[|t| - 1])
  {
    if s != [] && IsSpace(s[|s| - 1]) then TrimRight(s[..|s| - 1]) else s
  }

  /** Python's `s.strip()`. */
  function Strip(s: string): string
  {
    TrimRight(TrimLeft(s))
  }

  function DigitValue(c: char): nat
    requires IsDigit(c)
  {
    c as int - '0' as int
  }

  function DigitChar(d: nat): char
    requires d < 10
  {
    ('0' as int + d) as char
  }

  /** The number a run of decimal digits denotes (0 for the empty run). */
  function DigitsValue(s: string): nat
    requires AllDigits(s)
  {
    if s == [] then 0
    else 10 * DigitsValue(s[..|s| - 1]) + DigitValue(s[|s| - 1])
  }

  /** Python 2's `int(s)` on a byte string in base 10: surrounding
      whitespace, an optional sign, whitespace after the sign, then one or
      more digits. Every other string raises ValueError, which is None here. */
  function ParseInt(s: string): Option<int>
  {
    ParseStripped(Strip(s))
  }

  /** What `int()` makes of the text inside the surrounding whitespace. */
  function ParseStripped(t: string): Option<int>
  {
    if t != [] && (t[0] == '-' || t[0] == '+') then
      match ParseDigits(TrimLeft(t[1..]))
      case Some(magnitude) => Some(if t[0] == '-' then -magnitude else magnitude)
      case None => None
    else ParseDigits(t)
  }

  /** A non-empty run of decimal digits and nothing else. */
  function ParseDigits(d: string): Option<int>
  {
    if d != [] && AllDigits(d) then Some(DigitsValue(d)) else None
  }

  /** Python's `str(n)` for a natural number: its decimal digits, no leading zeros. */
  function NatToString(n: nat): (s: string)
    ensures s != [] && AllDigits(s)
    ensures s[0] == '0' <==> n == 0
    ensures |s| == 1 || s[0] != '0'
  {
    if n < 10 then [DigitChar(n)] else NatToString(n / 10) + [DigitChar(n % 10)]
  }

  /** Python's `str(n)` for an integer. */
  function IntToString(n: int): string
  {
    if n < 0 then "-" + NatToString(-n) else NatToString(n)
  }

  lemma {:induction false} DigitsValueOfNatToString(n: nat)
    ensures DigitsValue(NatToString(n)) == n
  {
    var s := NatToString(n);
    if n >= 10 {
      DigitsValueOfNatToString(n / 10);
      assert s[..|s| - 1] == NatToString(n / 10);
    }
  }

  /** Leading whitespace is all `lstrip` removes. */
  lemma {:induction false} TrimLeftPadded(pad: string, s: string)
    requires AllSpace(pad)
    requires s != [] && !IsSpace(s[0])
    ensures TrimLeft(pad + s) == s
  {
    if pad != [] {
      assert (pad + s)[0] == pad[0] && (pad + s)[1..] == pad[1..] + s;
      TrimLeftPadded(pad[1..], s);
    } else {
      assert pad + s == s;
    }
  }

  /** Trailing whitespace is all `rstrip` removes. */
  lemma {:induction false} TrimRightPadded(s: string, pad: string)
    requires AllSpace(pad)
    requires s != [] && !IsSpace(s[|s| - 1])
    ensures TrimRight(s + pad) == s
  {
    if pad != [] {
      var n := |s + pad|;
      assert (s + pad)[n - 1] == pad[|pad| - 1];
      assert (s + pad)[..n - 1] == s + pad[..|pad| - 1];
      TrimRightPadded(s, pad[..|pad| - 1]);
    } else {
      assert s + pad == s;
    }
  }

  /** `strip` removes exactly the whitespace padding around a string whose
      ends are not whitespace. */
  lemma StripPadded(before: string, s: string, after: string)
    requires AllSpace(before)
    requires AllSpace(after)
    requires s != [] && !IsSpace(s[0]) && !IsSpace(s[|s| - 1])
    ensures Strip(before + s + after) == s
  {
    assert before + s + after == before + (s + after);
    TrimLeftPadded(before, s + after);
    TrimRightPadded(s, after);
  }

  lemma StripKeeps(s: string)
    requires s != [] && !IsSpace(s[0]) && !IsSpace(s[|s| - 1])
    ensures Strip(s) == s
  {
    assert TrimLeft(s) == s;
  }

  /** A string already stripped is read as it stands. */
  lemma ParseIntOfStripped(s: string)
    requires s != [] && !IsSpace(s[0]) && !IsSpace(s[|s| - 1])
    ensures ParseInt(s) == ParseStripped(s)
  {
    StripKeeps(s);
  }

  /** A run of digits reads as the number it denotes. */
  lemma ParseIntOfDigits(t: string)
    requires t != [] && AllDigits(t)
    ensures ParseInt(t) == Some(DigitsValue(t))
  {
    assert IsDigit(t[0]) && IsDigit(t[|t| - 1]);
    ParseIntOfStripped(t);
    ParseStrippedDigits(t);
  }

  lemma ParseStrippedDigits(t: string)
    requires t != [] && AllDigits(t)
    ensures ParseStripped(t) == Some(DigitsValue(t))
  {
    assert IsDigit(t[0]);
  }

  /** A minus sign, any whitespace, then a run of digits reads as the
      negated number. */
  lemma ParseIntOfNegative(gap: string, digits: string)
    requires AllSpace(gap) && digits != [] && AllDigits(digits)
    ensures ParseInt("-" + gap + digits) == Some(-(DigitsValue(digits) as int))
  {
    var t := "-" + gap + digits;
    SignThenDigits(gap, digits);
    ParseStrippedNegative(t, digits);
    ParseIntOfStripped(t);
  }

  lemma SignThenDigits(gap: string, digits: string)
    requires AllSpace(gap) && digits != [] && AllDigits(digits)
    ensures var t := "-" + gap + digits;
      |t| > 1 && t[0] == '-' && !IsSpace(t[|t| - 1]) && TrimLeft(t[1..]) == digits
  {
    var t := "-" + gap + digits;
    assert t[|t| - 1] == digits[|digits| - 1];
    assert t[1..] == gap + digits;
    TrimLeftPadded(gap, digits);
  }

  lemma ParseStrippedNegative(t: string, digits: string)
    requires |t| > 1 && t[0] == '-' && TrimLeft(t[1..]) == digits
    requires digits != [] && AllDigits(digits)
    ensures ParseStripped(t) == Some(-(DigitsValue(digits) as int))
  {
  }

  /** `int(str(m)) == m` for a natural number. */
  lemma ParseIntOfNatToString(m: nat)
    ensures ParseInt(IntToString(m)) == Some(m)
  {
    DigitsValueOfNatToString(m);
    ParseIntOfDigits(NatToString(m));
  }

  /** `int(s) == -m` where `s` is `'-' + str(m)`. */
  lemma ParseIntOfMinusNatToString(m: nat, s: string)
    requires s == "-" + NatToString(m)
    ensures ParseInt(s) == Some(-(m as int))
  {
    var digits := NatToString(m);
    DigitsValueOfNatToString(m);
    ParseIntOfNegative("", digits);
    assert "-" + "" + digits == "-" + digits;
  }

  /** `int(str(n)) == n`: the decimal rendering of an integer reads back as
      that integer. */
  lemma ParseIntOfIntToString(n: int)
    ensures ParseInt(IntToString(n)) == Some(n)
  {
    if n < 0 {
      ParseIntOfMinusNatToString(-n, IntToString(n));
    } else {
      ParseIntOfNatToString(n);
    }
  }

  /** The rendering of an integer neither starts nor ends with whitespace. */
  lemma IntToStringEnds(n: int)
    ensures var s := IntToString(n);
      s != [] && !IsSpace(s[0]) && !IsSpace(s[|s| - 1])
  {
    var s := IntToString(n);
    var digits := NatToString(if n < 0 then -n else n);
    assert s[|s| - 1] == digits[|digits| - 1];
  }

  /** Whitespace around a string that neither starts nor ends with
      whitespace does not change what `int()` makes of it. */
  lemma ParseIntIgnoresPadding(before: string, s: string, after: string)
    requires AllSpace(before) && AllSpace(after)
    requires s != [] && !IsSpace(s[0]) && !IsSpace(s[|s| - 1])
    ensures ParseInt(before + s + after) == ParseInt(s)
  {
    StripPadded(before, s, after);
    ParseIntOfStripped(s);
  }

  /** `int()` ignores whitespace around the number: for any padding, e.g.
      `int(' 6379\t') == 6379`, the padded rendering of `n` reads back as `n`. */
  lemma ParseIntPadded(before: string, n: int, after: string)
    requires AllSpace(before) && AllSpace(after)
    ensures ParseInt(before + IntToString(n) + after) == Some(n)
  {
    IntToStringEnds(n);
    ParseIntIgnoresPadding(before, IntToString(n), after);
    ParseIntOfIntToString(n);
  }

  /** Python 2's `int()` also skips whitespace between the sign and the
      digits: `int('- 6379') == -6379`. */
  lemma ParseIntSpaceAfterSign(m: nat, gap: string)
    requires AllSpace(gap)
    ensures ParseInt("-" + gap + NatToString(m)) == Some(-(m as int))
  {
    DigitsValueOfNatToString(m);
    ParseIntOfNegative(gap, NatToString(m));
  }

  /** A string with nothing but whitespace, the empty string included, is
      not an integer (`int('')` raises). */
  lemma {:induction false} ParseIntBlank(s: string)
    requires AllSpace(s)
    ensures ParseInt(s) == None
  {
  }
}

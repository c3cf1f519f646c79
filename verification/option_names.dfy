/** The option-name decoder `splitOptionName` (Common/gmsh.cpp, lines 59-82).

    An option name is `Category.Name` or `Category[index].Name`. The decoder
    works with `std::string` positions of type `size_t`: `find_first_of` and
    `find_last_of` answer `npos` when the character is absent, `substr(pos,
    len)` clamps `len` to what is left of the string, and the length
    arithmetic wraps modulo 2^64. */
module OptionNames {
  import opened Wrappers
  import opened Words

  /** The `npos` marker, also the default length of `substr`. */
  const Npos: Word := WordLimit - 1

  /** `find_first_of(c)`: the first position holding `c`, `None` for `npos`. */
  function FindFirst(s: string, c: char): (r: Option<nat>)
    ensures r.None? <==> c !in s
    ensures r.Some? ==> r.value < |s| && s[r.value] == c && c !in s[..r.value]
  {
    if s == [] then None
    else if s[0] == c then Some(0)
    else
      match FindFirst(s[1..], c)
      case None => None
      case Some(p) =>
        assert s[..p + 1] == [s[0]] + s[1..][..p];
        Some(p + 1)
  }

  /** `find_last_of(c)`: the last position holding `c`, `None` for `npos`. */
  function FindLast(s: string, c: char): (r: Option<nat>)
    ensures r.None? <==> c !in s
    ensures r.Some? ==> r.value < |s| && s[r.value] == c && c !in s[r.value + 1..]
  {
    if s == [] then None
    else if s[|s| - 1] == c then Some(|s| - 1)
    else
      var r := FindLast(s[..|s| - 1], c);
      assert s == s[..|s| - 1] + [s[|s| - 1]];
      if r.Some? then
        assert s[r.value + 1..] == s[..|s| - 1][r.value + 1..] + [s[|s| - 1]];
        r
      else
        r
  }

  /** `substr(pos, len)`: at most `len` characters from `pos` on. The source
      only calls it with `pos <= size()`, so `out_of_range` never arises. */
  function Substr(s: string, pos: nat, len: nat): (r: string)
    requires pos <= |s|
    ensures |r| <= len && |r| <= |s| - pos
    ensures |r| == len || |r| == |s| - pos
    ensures r == s[pos..pos + |r|]
  {
    if len <= |s| - pos then s[pos..pos + len] else s[pos..]
  }

  predicate IsSpace(c: char) {
    c == ' ' || '\t' <= c <= '\r'
  }

  predicate IsDigit(c: char) {
    '0' <= c <= '9'
  }

  function DigitValue(c: char): nat
    requires IsDigit(c)
  {
    (c as int) - ('0' as int)
  }

  /** `atoi` skips leading white space. */
  function SkipSpace(s: string): (r: string)
    ensures |r| <= |s| && r == s[|s| - |r|..]
    ensures r == [] || !IsSpace(r[0])
  {
    if s != [] && IsSpace(s[0]) then SkipSpace(s[1..]) else s
  }

  /** The value of the leading digits of `s`, read after `acc`. */
  function Accumulate(s: string, acc: int): int {
    if s != [] && IsDigit(s[0]) then Accumulate(s[1..], 10 * acc + DigitValue(s[0])) else acc
  }

  /** `atoi`: optional white space, an optional sign, then decimal digits up
      to the first other character; `0` when there are none. */
  function Atoi(s: string): (r: int)
    ensures (forall i :: 0 <= i < |s| ==> !IsDigit(s[i])) ==> r == 0
  {
    var t := SkipSpace(s);
    if t != [] && t[0] == '-' then -Accumulate(t[1..], 0)
    else if t != [] && t[0] == '+' then Accumulate(t[1..], 0)
    else Accumulate(t, 0)
  }

  function DigitChar(n: nat): (c: char)
    requires n < 10
    ensures IsDigit(c) && DigitValue(c) == n
  {
    ('0' as int + n) as char
  }

  /** The decimal digits of `n`, most significant first. */
  function Decimal(n: nat): (r: string)
    ensures r != [] && forall i :: 0 <= i < |r| ==> IsDigit(r[i])
  {
    if n < 10 then [DigitChar(n)] else Decimal(n / 10) + [DigitChar(n % 10)]
  }

  /** `k` written in decimal, with a leading `-` when negative. */
  function Show(k: int): (r: string)
    ensures r != [] && (IsDigit(r[0]) || r[0] == '-')
    ensures forall i :: 0 <= i < |r| ==> IsDigit(r[i]) || (i == 0 && r[i] == '-')
  {
    if k < 0 then "-" + Decimal(-k) else Decimal(k)
  }

  /** The value of a run of digits read after `acc`. */
  function Fold(digits: string, acc: int): int
    requires forall i :: 0 <= i < |digits| ==> IsDigit(digits[i])
  {
    if digits == [] then acc else Fold(digits[1..], 10 * acc + DigitValue(digits[0]))
  }

  lemma {:induction false} AccumulateDigits(digits: string, acc: int)
    requires forall i :: 0 <= i < |digits| ==> IsDigit(digits[i])
    ensures Accumulate(digits, acc) == Fold(digits, acc)
    decreases |digits|
  {
    if digits != [] {
      AccumulateDigits(digits[1..], 10 * acc + DigitValue(digits[0]));
    }
  }

  lemma {:induction false} FoldSnoc(digits: string, c: char, acc: int)
    requires forall i :: 0 <= i < |digits| ==> IsDigit(digits[i])
    requires IsDigit(c)
    ensures Fold(digits + [c], acc) == 10 * Fold(digits, acc) + DigitValue(c)
    decreases |digits|
  {
    if digits == [] {
      assert digits + [c] == [c];
    } else {
      assert (digits + [c])[1..] == digits[1..] + [c];
      FoldSnoc(digits[1..], c, 10 * acc + DigitValue(digits[0]));
    }
  }

  /** Reading the decimal digits of `n` gives back `n`. */
  lemma {:induction false} FoldDecimal(n: nat)
    ensures Fold(Decimal(n), 0) == n
  {
    if n >= 10 {
      FoldDecimal(n / 10);
      FoldSnoc(Decimal(n / 10), DigitChar(n % 10), 0);
    }
  }

  /** `atoi` reads back what `Show` writes. */
  lemma AtoiShow(k: int)
    ensures Atoi(Show(k)) == k
  {
    var n := if k < 0 then -k else k;
    ReadDecimal(n);
    var s := Show(k);
    assert !IsSpace(s[0]);
    assert SkipSpace(s) == s;
    if k < 0 {
      assert s[0] == '-' && s[1..] == Decimal(n);
    } else {
      assert s == Decimal(n) && s[0] != '-' && s[0] != '+';
    }
  }

  /** The digits `Decimal` writes accumulate back to the number. */
  lemma ReadDecimal(n: nat)
    ensures Accumulate(Decimal(n), 0) == n
  {
    FoldDecimal(n);
    AccumulateDigits(Decimal(n), 0);
  }

  /** The three outputs of `splitOptionName`. */
  datatype Decoded = Decoded(category: string, name: string, index: int)

  /** `splitOptionName(fullName, category, name, index)`: `category` and
      `index` are the values the caller's variables held before the call,
      returned unchanged when `fullName` has no `.`. */
  function SplitOptionName(fullName: string, category: string, index: int): (r: Decoded)
    requires |fullName| < WordLimit
    ensures '.' !in fullName ==> r == Decoded(category, fullName, index)
    ensures '.' in fullName && !('[' in fullName && ']' in fullName) ==>
              r.index == 0 && r.category + "." + r.name == fullName && '.' !in r.category
  {
    match FindFirst(fullName, '.')
    case None => Decoded(category, fullName, index)
    case Some(d) =>
      var b1 := FindFirst(fullName, '[');
      var b2 := FindLast(fullName, ']');
      if b1.Some? && b2.Some? then
        var id := Substr(fullName, b1.value + 1, Sub(Sub(b2.value, b1.value), 1));
        Decoded(Substr(fullName, 0, b1.value), Substr(fullName, d + 1, Sub(b1.value, d)), Atoi(id))
      else
        assert fullName == fullName[..d] + "." + fullName[d + 1..];
        Decoded(Substr(fullName, 0, d), Substr(fullName, d + 1, Npos), 0)
  }

  /** `d` is the first `.`, `b1` the first `[` and `b2` the last `]` of `s`. */
  predicate Marks(s: string, d: nat, b1: nat, b2: nat) {
    && d < |s| && s[d] == '.' && '.' !in s[..d]
    && b1 < |s| && s[b1] == '[' && '[' !in s[..b1]
    && b2 < |s| && s[b2] == ']' && ']' !in s[b2 + 1..]
  }

  /** With both brackets present: the category is everything before the first
      `[`; the index is `atoi` of the text between the first `[` and the last
      `]` (of everything after the `[` when the `]` comes first, the negative
      length wrapping and `substr` clamping it); the name is everything after
      the first `.` when the `[` comes before it (the `Cat[k].Name` form, again
      by wrap-around and clamping), and otherwise runs from after the `.`
      through the `[`. */
  lemma BracketedDecode(s: string, category: string, index: int, d: nat, b1: nat, b2: nat)
    requires |s| < WordLimit && Marks(s, d, b1, b2)
    ensures SplitOptionName(s, category, index).category == s[..b1]
    ensures b1 < b2 ==> SplitOptionName(s, category, index).index == Atoi(s[b1 + 1..b2])
    ensures b2 < b1 ==> SplitOptionName(s, category, index).index == Atoi(s[b1 + 1..])
    ensures b1 < d ==> SplitOptionName(s, category, index).name == s[d + 1..]
    ensures d < b1 ==> SplitOptionName(s, category, index).name == s[d + 1..b1 + 1]
  {
    BracketedForm(s, category, index, d, b1, b2);
    IndexText(s, b1, b2);
    NameText(s, d, b1);
  }

  /** The three `substr` calls of the bracketed branch. */
  lemma BracketedForm(s: string, category: string, index: int, d: nat, b1: nat, b2: nat)
    requires |s| < WordLimit && Marks(s, d, b1, b2)
    ensures b1 + 1 <= |s| && d + 1 <= |s|
    ensures SplitOptionName(s, category, index)
         == Decoded(s[..b1], Substr(s, d + 1, Sub(b1, d)), Atoi(Substr(s, b1 + 1, Sub(Sub(b2, b1), 1))))
  {
    FirstAt(s, '.', d);
    FirstAt(s, '[', b1);
    LastAt(s, ']', b2);
    assert Substr(s, 0, b1) == s[..b1];
  }

  /** A position holding `c` with no `c` before it is what `FindFirst` finds. */
  lemma FirstAt(s: string, c: char, p: nat)
    requires p < |s| && s[p] == c && c !in s[..p]
    ensures FindFirst(s, c) == Some(p)
  {
    var r := FindFirst(s, c);
    assert forall q :: 0 <= q < p ==> s[..p][q] == s[q];
    assert r.Some? && forall q :: 0 <= q < r.value ==> s[..r.value][q] == s[q];
  }

  /** A position holding `c` with no `c` after it is what `FindLast` finds. */
  lemma LastAt(s: string, c: char, p: nat)
    requires p < |s| && s[p] == c && c !in s[p + 1..]
    ensures FindLast(s, c) == Some(p)
  {
    var r := FindLast(s, c);
    assert forall q :: p < q < |s| ==> s[p + 1..][q - p - 1] == s[q];
    assert r.Some? && forall q :: r.value < q < |s| ==> s[r.value + 1..][q - r.value - 1] == s[q];
  }

  /** The text handed to `atoi`: up to the last `]`, or, when that `]` comes
      before the `[`, the wrapped length clamped to the rest of the string. */
  lemma IndexText(s: string, b1: nat, b2: nat)
    requires |s| < WordLimit && b1 < |s| && b2 < |s| && b1 != b2
    ensures b1 < b2 ==> Substr(s, b1 + 1, Sub(Sub(b2, b1), 1)) == s[b1 + 1..b2]
    ensures b2 < b1 ==> Substr(s, b1 + 1, Sub(Sub(b2, b1), 1)) == s[b1 + 1..]
  {
    if b1 < b2 {
      assert Sub(Sub(b2, b1), 1) == b2 - b1 - 1;
    } else {
      assert Sub(b2, b1) == b2 - b1 + WordLimit;
      assert Sub(Sub(b2, b1), 1) > |s| - (b1 + 1);
    }
  }

  /** The name: from after the `.` through the `[`, or, when the `[` comes
      before the `.`, the wrapped length clamped to the rest of the string. */
  lemma NameText(s: string, d: nat, b1: nat)
    requires |s| < WordLimit && d < |s| && b1 < |s| && b1 != d
    ensures d < b1 ==> Substr(s, d + 1, Sub(b1, d)) == s[d + 1..b1 + 1]
    ensures b1 < d ==> Substr(s, d + 1, Sub(b1, d)) == s[d + 1..]
  {
    if b1 < d {
      assert Sub(b1, d) == b1 - d + WordLimit;
    }
  }

  /** `Category.Name` decodes to its two parts and index 0. */
  lemma PlainRoundTrip(cat: string, name: string, category: string, index: int)
    requires '.' !in cat
    requires '[' !in cat + name || ']' !in cat + name
    requires |cat + "." + name| < WordLimit
    ensures SplitOptionName(cat + "." + name, category, index) == Decoded(cat, name, 0)
  {
    var s := cat + "." + name;
    assert s[|cat|] == '.' && s[..|cat|] == cat && s[|cat| + 1..] == name;
    assert FindFirst(s, '.') == Some(|cat|);
    assert forall c :: c in s && c != '.' ==> c in cat + name;
  }

  /** `Category[k].Name` decodes to its three parts. */
  lemma IndexedRoundTrip(cat: string, k: int, name: string, category: string, index: int)
    requires '.' !in cat && '[' !in cat && ']' !in name
    requires |cat + "[" + Show(k) + "]." + name| < WordLimit
    ensures SplitOptionName(cat + "[" + Show(k) + "]." + name, category, index) == Decoded(cat, name, k)
  {
    var id := Show(k);
    var s := cat + "[" + id + "]." + name;
    var b1, b2 := |cat|, |cat| + 1 + |id|;
    var d := b2 + 1;
    assert s[..b1] == cat && s[b1] == '[';
    assert s[b1 + 1..b2] == id && s[b2] == ']' && s[d] == '.';
    assert s[d + 1..] == name;
    assert s[..d] == cat + "[" + id + "]";
    assert '.' !in id && '[' !in id && ']' !in id;
    assert '.' !in s[..d];
    assert s[b2 + 1..] == "." + name;
    assert ']' !in s[b2 + 1..];
    BracketedDecode(s, category, index, d, b1, b2);
    AtoiShow(k);
  }
}

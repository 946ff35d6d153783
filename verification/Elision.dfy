/** Size-bounded prefixes of a node's text (viewer/core/normalize.ts). Strings are UTF-16 code units,
    as in JavaScript. */
module Utf16 {

  type CodeUnit = u: int | 0 <= u < 0x10000
  type Text = seq<CodeUnit>

  predicate IsHigh(u: CodeUnit) {
    0xD800 <= u <= 0xDBFF
  }

  predicate IsLow(u: CodeUnit) {
    0xDC00 <= u <= 0xDFFF
  }

  predicate StartsPair(s: Text) {
    |s| >= 2 && IsHigh(s[0]) && IsLow(s[1])
  }

  /** Section 3 of RFC 3629 for one unit outside a pair. A lone surrogate encodes as U+FFFD. */
  function UnitBytes(u: CodeUnit): nat {
    if u < 0x80 then 1 else if u < 0x800 then 2 else 3
  }

  /** The length of the text's UTF-8 encoding. */
  function Utf8Bytes(s: Text): nat {
    if s == [] then 0
    else if StartsPair(s) then 4 + Utf8Bytes(s[2..])
    else UnitBytes(s[0]) + Utf8Bytes(s[1..])
  }

  lemma {:induction false} BytesOfOneMore(s: Text, u: CodeUnit)
    ensures Utf8Bytes(s + [u]) ==
            Utf8Bytes(s) + if s != [] && IsHigh(s[|s| - 1]) && IsLow(u) then 1 else UnitBytes(u)
    decreases |s|
  {
    var t := s + [u];
    if s == [] {
      assert t[1..] == [];
    } else if StartsPair(s) {
      assert t[2..] == s[2..] + [u];
      BytesOfOneMore(s[2..], u);
    } else if |s| == 1 && IsHigh(s[0]) && IsLow(u) {
      assert t[2..] == [] && s[1..] == [];
    } else {
      assert t[1..] == s[1..] + [u];
      BytesOfOneMore(s[1..], u);
    }
  }

  function PrefixBytes(text: Text, k: nat): nat
    requires k <= |text|
  {
    Utf8Bytes(text[..k])
  }

  lemma {:induction false} LongerPrefixHasMoreBytes(text: Text, j: nat, k: nat)
    requires j < k <= |text|
    ensures PrefixBytes(text, j) < PrefixBytes(text, k)
    decreases k
  {
    assert text[..k] == text[..k - 1] + [text[k - 1]];
    BytesOfOneMore(text[..k - 1], text[k - 1]);
    if j < k - 1 {
      LongerPrefixHasMoreBytes(text, j, k - 1);
    }
  }

  /** No lone surrogate. */
  predicate WellFormed(s: Text) {
    if s == [] then true
    else if StartsPair(s) then WellFormed(s[2..])
    else !IsHigh(s[0]) && !IsLow(s[0]) && WellFormed(s[1..])
  }

  lemma {:induction false} HighIsFollowedByLow(s: Text, i: nat)
    requires WellFormed(s) && i < |s| && IsHigh(s[i])
    ensures i + 1 < |s| && IsLow(s[i + 1])
    decreases |s|
  {
    if StartsPair(s) {
      if i >= 2 {
        HighIsFollowedByLow(s[2..], i - 2);
      }
    } else if i >= 1 {
      HighIsFollowedByLow(s[1..], i - 1);
    }
  }

  lemma {:induction false} PrefixStaysWellFormed(s: Text, k: nat)
    requires WellFormed(s) && k <= |s| && (k == 0 || !IsHigh(s[k - 1]))
    ensures WellFormed(s[..k])
    decreases |s|
  {
    if k > 0 {
      if StartsPair(s) {
        if k > 1 {
          PrefixStaysWellFormed(s[2..], k - 2);
          assert s[..k][2..] == s[2..][..k - 2];
        }
      } else {
        PrefixStaysWellFormed(s[1..], k - 1);
        assert s[..k][1..] == s[1..][..k - 1];
      }
    }
  }
}

module Elision {
  import opened Utf16

  const NODE_CAP: nat := 64 * 1024

  /** The most units whose encoding stays within the bound. */
  function FittingLength(text: Text, maxBytes: int, k: nat): (m: nat)
    requires k <= |text|
    ensures m <= k
    ensures m > 0 ==> PrefixBytes(text, m) <= maxBytes
    ensures forall j :: m < j <= k ==> PrefixBytes(text, j) > maxBytes
  {
    if k == 0 || PrefixBytes(text, k) <= maxBytes then k else FittingLength(text, maxBytes, k - 1)
  }

  /** The prefix `truncateUtf8` keeps: the longest fitting one, less a final high surrogate. */
  function Truncated(text: Text, maxBytes: int): (r: Text)
    ensures r <= text
  {
    var m := FittingLength(text, maxBytes, |text|);
    if 0 < m < |text| && IsHigh(text[m - 1]) then text[..m - 1] else text[..m]
  }

  method TruncateUtf8(text: Text, maxBytes: int) returns (r: Text)
    ensures r == Truncated(text, maxBytes)
  {
    if maxBytes <= 0 {
      ghost var m := FittingLength(text, maxBytes, |text|);
      if m > 0 {
        LongerPrefixHasMoreBytes(text, 0, m);
      }
      return [];
    }
    assert text[..|text|] == text;
    if Utf8Bytes(text) <= maxBytes {
      return text;
    }
    var lo, hi := 0, |text|;
    while lo < hi
      invariant 0 <= lo <= hi <= |text|
      invariant PrefixBytes(text, lo) <= maxBytes
      invariant forall j :: hi < j <= |text| ==> PrefixBytes(text, j) > maxBytes
    {
      var mid := (lo + hi + 1) / 2;
      if Utf8Bytes(text[..mid]) <= maxBytes {
        lo := mid;
      } else {
        forall j | mid < j <= |text| ensures PrefixBytes(text, j) > maxBytes {
          LongerPrefixHasMoreBytes(text, mid, j);
        }
        hi := mid - 1;
      }
    }
    assert lo == FittingLength(text, maxBytes, |text|);
    if lo > 0 && lo < |text| {
      var code := text[lo - 1];
      if 0xD800 <= code <= 0xDBFF {
        lo := lo - 1;
      }
    }
    return text[..lo];
  }

  /** For any text the kept prefix is within the bound and does not cut a surrogate pair; nothing more is given up than
      a high surrogate at its end. */
  lemma TruncationIsBoundedAndWhole(text: Text, maxBytes: nat)
    ensures Utf8Bytes(Truncated(text, maxBytes)) <= maxBytes
    ensures var k := |Truncated(text, maxBytes)|;
      0 < k < |text| ==> !(IsHigh(text[k - 1]) && IsLow(text[k]))
    ensures var k := |Truncated(text, maxBytes)|;
      forall j :: k < j <= |text| && PrefixBytes(text, j) <= maxBytes ==> j == k + 1 && IsHigh(text[k])
  {
    var m := FittingLength(text, maxBytes, |text|);
    if m > 0 {
      LongerPrefixHasMoreBytes(text, m - 1, m);
    }
  }

  /** For well-formed text it is the longest well-formed prefix within the bound. */
  lemma TruncationIsLongest(text: Text, maxBytes: nat)
    requires WellFormed(text)
    ensures WellFormed(Truncated(text, maxBytes))
    ensures forall j :: 0 <= j <= |text| && WellFormed(text[..j]) && Utf8Bytes(text[..j]) <= maxBytes ==>
                          j <= |Truncated(text, maxBytes)|
  {
    var m := FittingLength(text, maxBytes, |text|);
    var k := |Truncated(text, maxBytes)|;
    assert text[..|text|] == text;
    if 0 < k && IsHigh(text[k - 1]) {
      HighIsFollowedByLow(text, k - 1);
    }
    PrefixStaysWellFormed(text, k);
    forall j | 0 <= j <= |text| && WellFormed(text[..j]) && Utf8Bytes(text[..j]) <= maxBytes
      ensures j <= k
    {
      assert PrefixBytes(text, j) <= maxBytes;
      if k < j {
        assert IsHigh(text[..j][j - 1]);
        HighIsFollowedByLow(text[..j], j - 1);
      }
    }
  }

  // ----- elision

  /** The first halving of the budget whose value fits, or the last one tried. */
  function SettledBudget<T>(text: Text, build: (Text, bool) -> T, size: T -> nat, cap: nat, budget: nat): (b: nat)
    ensures b <= budget
    ensures size(build(Truncated(text, b), true)) <= cap || b <= 1
    ensures budget >= 1 ==> b >= 1
  {
    if size(build(Truncated(text, budget), true)) > cap && budget > 1 then
      SettledBudget(text, build, size, cap, budget / 2)
    else budget
  }

  predicate WholeFits<T>(text: Text, build: (Text, bool) -> T, size: T -> nat, cap: nat) {
    Utf8Bytes(text) <= cap && size(build(text, false)) <= cap
  }

  function Elided<T>(text: Text, build: (Text, bool) -> T, size: T -> nat, cap: nat): T {
    if WholeFits(text, build, size, cap) then build(text, false)
    else build(Truncated(text, SettledBudget(text, build, size, cap, cap)), true)
  }

  /** `size` is the UTF-8 length of the value's JSON encoding. */
  method ElideToFit<T>(text: Text, build: (Text, bool) -> T, size: T -> nat, cap: nat) returns (value: T)
    ensures value == Elided(text, build, size, cap)
  {
    if Utf8Bytes(text) <= cap {
      var full := build(text, false);
      if size(full) <= cap {
        return full;
      }
    }
    var budget := cap;
    var candidateText := TruncateUtf8(text, budget);
    value := build(candidateText, true);
    while size(value) > cap && budget > 1
      invariant value == build(Truncated(text, budget), true)
      invariant SettledBudget(text, build, size, cap, budget) == SettledBudget(text, build, size, cap, cap)
      decreases budget
    {
      budget := budget / 2;
      candidateText := TruncateUtf8(text, budget);
      value := build(candidateText, true);
    }
  }

  /** The value is over the cap only when the value on the at-most-one-byte prefix is. Whatever is not
      marked elided is the whole text, and everything else holds a bounded whole-pair prefix. */
  lemma ElisionFits<T>(text: Text, build: (Text, bool) -> T, size: T -> nat, cap: nat)
    requires cap >= 1
    ensures size(build(Truncated(text, 1), true)) <= cap ==> size(Elided(text, build, size, cap)) <= cap
    ensures var v := Elided(text, build, size, cap);
      if WholeFits(text, build, size, cap) then v == build(text, false)
      else exists prefix :: prefix <= text && Utf8Bytes(prefix) <= cap && v == build(prefix, true)
  {
    var b := SettledBudget(text, build, size, cap, cap);
    TruncationIsBoundedAndWhole(text, b);
    var prefix := Truncated(text, b);
    assert prefix <= text && Utf8Bytes(prefix) <= cap;
  }

  /** The cap, halved `n` times. */
  function Halved(cap: nat, n: nat): nat {
    if n == 0 then cap else Halved(cap, n - 1) / 2
  }

  /** The value cut to the `n`-th halving of the cap. */
  function CutTo<T>(text: Text, build: (Text, bool) -> T, cap: nat, n: nat): T {
    build(Truncated(text, Halved(cap, n)), true)
  }

  lemma {:induction false} SettlesByHalving<T>(text: Text, build: (Text, bool) -> T, size: T -> nat, cap: nat, k: nat)
    returns (n: nat)
    ensures k <= n && SettledBudget(text, build, size, cap, Halved(cap, k)) == Halved(cap, n)
    ensures size(CutTo(text, build, cap, n)) <= cap || Halved(cap, n) <= 1
    ensures forall m :: k <= m < n ==> size(CutTo(text, build, cap, m)) > cap && Halved(cap, m) > 1
    decreases Halved(cap, k)
  {
    hide Truncated;
    if size(CutTo(text, build, cap, k)) > cap && Halved(cap, k) > 1 {
      n := SettlesByHalving(text, build, size, cap, k + 1);
    } else {
      n := k;
    }
  }

  /** No more is cut than must be: the whole text stays when it and its value fit; otherwise the value is cut to a
      halving of the cap before which no halving fits, and it fits itself unless there is nothing left to halve. */
  lemma ElisionKeepsTheMost<T>(text: Text, build: (Text, bool) -> T, size: T -> nat, cap: nat)
    ensures var v := Elided(text, build, size, cap);
      if Utf8Bytes(text) <= cap && size(build(text, false)) <= cap then v == build(text, false)
      else exists n: nat :: v == CutTo(text, build, cap, n) && (size(v) <= cap || Halved(cap, n) <= 1)
                       && forall m :: 0 <= m < n ==> size(CutTo(text, build, cap, m)) > cap
  {
    if !WholeFits(text, build, size, cap) {
      var n := SettlesByHalving(text, build, size, cap, 0);
    }
  }
}

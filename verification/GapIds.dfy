/** Gap ids: `G-` and a zero-padded decimal number (gaps/ledger.ts). */
module GapIds {
  import opened Collections

  function Digit(d: nat): char
    requires d < 10
  {
    ('0' as int + d) as char
  }

  predicate IsDigit(c: char) {
    '0' <= c <= '9'
  }

  function Decimal(n: nat): (s: string)
    ensures |s| >= 1 && forall i :: 0 <= i < |s| ==> IsDigit(s[i])
  {
    if n < 10 then [Digit(n)] else Decimal(n / 10) + [Digit(n % 10)]
  }

  /** `Number` of a digit string. */
  function Number(s: string): nat
    requires forall i :: 0 <= i < |s| ==> IsDigit(s[i])
  {
    if s == "" then 0
    else
      assert IsDigit(s[|s| - 1]);
      Number(s[..|s| - 1]) * 10 + (s[|s| - 1] as int - '0' as int)
  }

  function PadStart(s: string, width: nat): (r: string)
    ensures |r| >= |s|
    decreases width - |s|
  {
    if |s| >= width then s else PadStart("0" + s, width)
  }

  function IdOf(n: nat): string {
    "G-" + PadStart(Decimal(n), 3)
  }

  predicate IsGapId(id: string) {
    |id| >= 3 && id[0] == 'G' && id[1] == '-' && forall i :: 2 <= i < |id| ==> IsDigit(id[i])
  }

  function NumberOf(id: string): Option<nat> {
    if IsGapId(id) then Some(Number(id[2..])) else None
  }

  lemma {:induction false} DecimalReadsBack(n: nat)
    ensures Number(Decimal(n)) == n
  {
    if n >= 10 {
      DecimalReadsBack(n / 10);
      assert Decimal(n)[..|Decimal(n)| - 1] == Decimal(n / 10);
    } else {
      assert Decimal(n)[..0] == "";
    }
  }

  lemma {:induction false} LeadingZero(s: string)
    requires forall i :: 0 <= i < |s| ==> IsDigit(s[i])
    ensures Number("0" + s) == Number(s)
  {
    var t := "0" + s;
    if s == "" {
      assert t[..0] == "";
    } else {
      assert t[..|t| - 1] == "0" + s[..|s| - 1];
      LeadingZero(s[..|s| - 1]);
    }
  }

  lemma {:induction false} PaddingReadsBack(s: string, width: nat)
    requires forall i :: 0 <= i < |s| ==> IsDigit(s[i])
    ensures forall i :: 0 <= i < |PadStart(s, width)| ==> IsDigit(PadStart(s, width)[i])
    ensures Number(PadStart(s, width)) == Number(s)
    decreases width - |s|
  {
    if |s| < width {
      LeadingZero(s);
      PaddingReadsBack("0" + s, width);
    }
  }

  /** Printing and parsing an id round-trips, padded or not. */
  lemma IdReadsBack(n: nat)
    ensures NumberOf(IdOf(n)) == Some(n)
  {
    DecimalReadsBack(n);
    PaddingReadsBack(Decimal(n), 3);
    assert IdOf(n)[2..] == PadStart(Decimal(n), 3);
  }

  /** The largest number among the ids that carry one. */
  function MaxNumber(ids: seq<string>): (m: nat)
    ensures forall id :: id in ids && NumberOf(id).Some? ==> NumberOf(id).value <= m
    ensures m == 0 || exists id :: id in ids && NumberOf(id) == Some(m)
  {
    if ids == [] then 0
    else
      var before := MaxNumber(ids[..|ids| - 1]);
      var last := NumberOf(ids[|ids| - 1]);
      assert ids == ids[..|ids| - 1] + [ids[|ids| - 1]];
      if last.Some? && last.value > before then last.value else before
  }

  method MintNextId(existingIds: seq<string>) returns (id: string)
    ensures id == IdOf(MaxNumber(existingIds) + 1)
    ensures id !in existingIds
  {
    var maxNumber: nat := 0;
    for i := 0 to |existingIds|
      invariant maxNumber == MaxNumber(existingIds[..i])
    {
      assert existingIds[..i + 1][..i] == existingIds[..i];
      var number := NumberOf(existingIds[i]);
      if number.Some? && number.value > maxNumber {
        maxNumber := number.value;
      }
    }
    assert existingIds[..|existingIds|] == existingIds;
    IdReadsBack(maxNumber + 1);
    id := IdOf(maxNumber + 1);
  }

  /** An id is `G-` and at least three digits, filled up with zeros and never cut. */
  lemma IdIsPaddedDecimal(n: nat)
    ensures exists zeros: nat :: IdOf(n) == "G-" + (Zeros(zeros) + Decimal(n))
              && (zeros > 0 ==> |IdOf(n)| == 5) && |IdOf(n)| >= 5
  {
    var zeros := PaddingIsZeros(Decimal(n), 3);
    assert IdOf(n) == "G-" + (Zeros(zeros) + Decimal(n));
  }

  function Zeros(n: nat): (s: string)
    ensures |s| == n
  {
    seq(n, _ => '0')
  }

  lemma {:induction false} PaddingIsZeros(s: string, width: nat) returns (zeros: nat)
    ensures PadStart(s, width) == Zeros(zeros) + s && |PadStart(s, width)| >= width
    ensures zeros > 0 ==> |PadStart(s, width)| == width
    decreases width - |s|
  {
    if |s| >= width {
      zeros := 0;
      assert Zeros(0) + s == s;
    } else {
      var more := PaddingIsZeros("0" + s, width);
      zeros := more + 1;
      assert Zeros(more) + ("0" + s) == Zeros(zeros) + s;
    }
  }

  /** Only such ids carry a number. */
  lemma NumberedIds(id: string)
    ensures NumberOf(id).Some? <==>
              (exists digits: string :: digits != "" && id == "G-" + digits
                 && forall i :: 0 <= i < |digits| ==> '0' <= digits[i] <= '9')
  {
    hide Number;
    if NumberOf(id).Some? {
      var digits := id[2..];
      assert id == "G-" + digits;
      assert forall i :: 0 <= i < |digits| ==> digits[i] == id[i + 2] && IsDigit(id[i + 2]);
    }
    if digits: string :| digits != "" && id == "G-" + digits && forall i :: 0 <= i < |digits| ==> '0' <= digits[i] <= '9' {
      assert forall i :: 2 <= i < |id| ==> id[i] == digits[i - 2];
    }
  }
}

// Lists of ids as comma-joined decimal text, the form in which a view returns the children of a row.

module IdText {
  predicate IsDigit(c: char) {
    '0' <= c <= '9'
  }

  function DigitChar(d: int): (c: char)
    requires 0 <= d < 10
    ensures IsDigit(c)
  {
    ('0' as int + d) as char
  }

  function DigitValue(c: char): (d: nat)
    requires IsDigit(c)
    ensures d < 10
  {
    c as int - '0' as int
  }

  function DecimalNat(n: nat): (s: string)
    ensures s != [] && forall k :: 0 <= k < |s| ==> IsDigit(s[k])
  {
    if n < 10 then [DigitChar(n)] else DecimalNat(n / 10) + [DigitChar(n % 10)]
  }

  /** An integer as the database prints it. */
  function Decimal(n: int): string {
    if n < 0 then "-" + DecimalNat(-n) else DecimalNat(n)
  }

  /** Digits read from the front, as far as there are any. */
  function ReadNat(s: string, value: nat): nat {
    if s == [] || !IsDigit(s[0]) then value else ReadNat(s[1..], 10 * value + DigitValue(s[0]))
  }

  /** Text read as an integer: a sign, then digits up to the first character that is none. */
  function Atoll(s: string): int {
    if s != [] && s[0] == '-' then 0 - ReadNat(s[1..], 0) as int
    else if s != [] && s[0] == '+' then ReadNat(s[1..], 0)
    else ReadNat(s, 0)
  }

  /** What is inverted is decimal text. */
  lemma DecimalText()
    ensures Decimal(1203) == "1203" && Decimal(-40) == "-40" && Decimal(0) == "0"
  {
  }

  lemma {:induction false} ReadNatConcat(a: string, b: string, value: nat)
    requires forall k :: 0 <= k < |a| ==> IsDigit(a[k])
    ensures ReadNat(a + b, value) == ReadNat(b, ReadNat(a, value))
    decreases |a|
  {
    if a == [] {
      assert a + b == b;
    } else {
      assert (a + b)[1..] == a[1..] + b;
      ReadNatConcat(a[1..], b, 10 * value + DigitValue(a[0]));
    }
  }

  lemma {:induction false} ReadsDecimalNat(n: nat)
    ensures ReadNat(DecimalNat(n), 0) == n
  {
    if n < 10 {
      assert DecimalNat(n)[1..] == [];
    } else {
      ReadsDecimalNat(n / 10);
      ReadNatConcat(DecimalNat(n / 10), [DigitChar(n % 10)], 0);
      assert [DigitChar(n % 10)][1..] == [];
    }
  }

  lemma ReadsDecimal(n: int)
    ensures Atoll(Decimal(n)) == n
    ensures forall k :: 0 <= k < |Decimal(n)| ==> Decimal(n)[k] != ','
  {
    if n < 0 {
      assert Decimal(n)[1..] == DecimalNat(-n);
      ReadsDecimalNat(-n);
    } else {
      assert IsDigit(DecimalNat(n)[0]);
      ReadsDecimalNat(n);
    }
  }

  // ---- Joining and splitting -----------------------------------------------------------------

  /** The decimal texts of the ids with commas between them. */
  function GroupConcat(ids: seq<int>): string {
    if ids == [] then ""
    else if |ids| == 1 then Decimal(ids[0])
    else Decimal(ids[0]) + "," + GroupConcat(ids[1..])
  }

  /** The pieces between commas; the empty text has one empty piece. */
  function Split(s: string): (pieces: seq<string>)
    ensures pieces != []
  {
    if s == [] then [""]
    else if s[0] == ',' then [""] + Split(s[1..])
    else
      var rest := Split(s[1..]);
      [[s[0]] + rest[0]] + rest[1..]
  }

  lemma {:induction false} SplitPiece(a: string)
    requires forall k :: 0 <= k < |a| ==> a[k] != ','
    ensures Split(a) == [a]
  {
    if a != [] {
      SplitPiece(a[1..]);
      assert [a[0]] + a[1..] == a;
    }
  }

  lemma {:induction false} SplitFirst(a: string, b: string)
    requires forall k :: 0 <= k < |a| ==> a[k] != ','
    ensures Split(a + "," + b) == [a] + Split(b)
  {
    if a == [] {
      assert (a + "," + b)[1..] == b;
    } else {
      assert (a + "," + b)[1..] == a[1..] + "," + b;
      SplitFirst(a[1..], b);
      assert [a[0]] + a[1..] == a;
      assert ([a[1..]] + Split(b))[1..] == Split(b);
    }
  }

  function ReadAll(pieces: seq<string>): seq<int> {
    if pieces == [] then [] else [Atoll(pieces[0])] + ReadAll(pieces[1..])
  }

  /** Splitting and reading inverts joining, for every non-empty list of ids. */
  lemma {:induction false} SplitInvertsGroupConcat(ids: seq<int>)
    requires ids != []
    ensures ReadAll(Split(GroupConcat(ids))) == ids
  {
    ReadsDecimal(ids[0]);
    if |ids| == 1 {
      SplitPiece(Decimal(ids[0]));
    } else {
      SplitInvertsGroupConcat(ids[1..]);
      SplitFirst(Decimal(ids[0]), GroupConcat(ids[1..]));
      var rest := Split(GroupConcat(ids[1..]));
      assert ([Decimal(ids[0])] + rest)[1..] == rest;
    }
  }

  /** Read a joined list, id by id, onto the end of `before`. */
  method AppendIds(before: seq<int>, text: string) returns (ids: seq<int>)
    ensures ids == before + ReadAll(Split(text))
  {
    ids := before;
    var pieces := Split(text);
    for k := 0 to |pieces|
      invariant ids + ReadAll(pieces[k..]) == before + ReadAll(pieces)
    {
      assert pieces[k..][1..] == pieces[k + 1..];
      ids := ids + [Atoll(pieces[k])];
    }
    assert pieces[|pieces|..] == [];
  }
}

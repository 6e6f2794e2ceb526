/**
 The random-token generators of the receipt generator. Every `randint` draw
 is supplied by the caller as a value already inside the range the source
 asks for; the results are then determined, and their shape is what the
 contracts state.
 */
module RandomTokens {
  import opened PyStr

  /** A draw of `randint(0, 9)`. */
  type Digit = d: int | 0 <= d <= 9

  /** A draw of `randint(7, 18)`: the hour of the receipt. */
  type Hour = h: int | 7 <= h <= 18 witness 7

  /** A draw of `randint(0, 59)`: the minute of the receipt. */
  type Minute = m: int | 0 <= m <= 59

  predicate IsUpper(c: char) {
    'A' <= c <= 'Z'
  }

  /** The value of a two-digit field such as the `HH` of `HH:MM`. */
  function TwoDigitValue(s: string): int
    requires |s| == 2
  {
    10 * DigitValue(s[0]) + DigitValue(s[1])
  }

  /**
   `generate_random_time`: `f"{hour:02d}:{minute:02d}"`. The text reads back
   as the hour and minute that were drawn.
   */
  function RandomTime(hour: Hour, minute: Minute): (r: string)
    ensures |r| == 5 && r[2] == ':'
    ensures IsDigit(r[0]) && IsDigit(r[1]) && IsDigit(r[3]) && IsDigit(r[4])
    ensures TwoDigitValue(r[..2]) == hour && TwoDigitValue(r[3..]) == minute
  {
    Pad2(hour) + ":" + Pad2(minute)
  }

  /** Every time string lies between "07:00" and "18:59", field by field. */
  lemma RandomTimeRange(hour: Hour, minute: Minute)
    ensures var r := RandomTime(hour, minute);
      7 <= TwoDigitValue(r[..2]) <= 18 && 0 <= TwoDigitValue(r[3..]) <= 59
      && (r[0] == '0' || r[0] == '1')
  {
    var r := RandomTime(hour, minute);
    assert 10 * DigitValue(r[0]) <= 18;
  }

  /**
   `generate_random_number(len(draws))`: one digit character per draw, in the
   order drawn; no draws give the empty string.
   */
  function RandomNumber(draws: seq<Digit>): (r: string)
    ensures |r| == |draws|
    ensures forall i :: 0 <= i < |r| ==> IsDigit(r[i]) && DigitValue(r[i]) == draws[i]
  {
    if |draws| == 0 then ""
    else RandomNumber(draws[..|draws| - 1]) + [DigitChar(draws[|draws| - 1])]
  }

  /**
   The seven draws of `generate_random_reference`: two of `randint(65, 90)`
   followed by five of `randint(0, 9)`.
   */
  predicate ReferenceDraws(draws: seq<int>) {
    && |draws| == 7
    && (forall i :: 0 <= i < 2 ==> 65 <= draws[i] <= 90)
    && (forall i :: 2 <= i < 7 ==> 0 <= draws[i] <= 9)
  }

  /** The character appended at step `i` of the reference loop. */
  function ReferenceChar(i: nat, v: int): char
    requires i < 2 ==> 65 <= v <= 90
    requires i >= 2 ==> 0 <= v <= 9
  {
    if i == 0 || i == 1 then v as char else DigitChar(v)
  }

  /** The reference after the first `n` iterations of its loop. */
  function ReferencePrefix(draws: seq<int>, n: nat): (r: string)
    requires ReferenceDraws(draws) && n <= 7
    ensures |r| == n
    ensures forall i :: 0 <= i < n && i < 2 ==> IsUpper(r[i]) && r[i] as int == draws[i]
    ensures forall i :: 2 <= i < n ==> IsDigit(r[i]) && DigitValue(r[i]) == draws[i]
  {
    if n == 0 then ""
    else ReferencePrefix(draws, n - 1) + [ReferenceChar(n - 1, draws[n - 1])]
  }

  /**
   `generate_random_reference`: two upper-case letters then five digits,
   each the character of its draw.
   */
  function RandomReference(draws: seq<int>): (r: string)
    requires ReferenceDraws(draws)
    ensures |r| == 7
    ensures IsUpper(r[0]) && IsUpper(r[1])
    ensures forall i :: 2 <= i < 7 ==> IsDigit(r[i])
    ensures forall i :: 0 <= i < 7 ==>
      (if i < 2 then r[i] as int else DigitValue(r[i])) == draws[i]
  {
    ReferencePrefix(draws, 7)
  }

  /** The smaller of two integers. */
  function Min(a: int, b: int): int {
    if a < b then a else b
  }

  /**
   `generate_transaction_id(date)`: `date[-2:] + date[:2] + date[3:5]`
   followed by ten random digits. Slices clamp, so a date shorter than five
   characters yields shorter (malformed) fields rather than an error.
   */
  function TransactionId(date: string, draws: seq<Digit>): (r: string)
    requires |draws| == 10
    ensures |r| >= 10
    ensures r[..|r| - 10]
      == date[|date| - Min(2, |date|)..] + date[..Min(2, |date|)] + date[Min(3, |date|)..Min(5, |date|)]
    ensures forall i :: 0 <= i < 10 ==> IsDigit(r[|r| - 10 + i]) && DigitValue(r[|r| - 10 + i]) == draws[i]
  {
    var year := Slice(date, -2, |date|);
    var month := Slice(date, 0, 2);
    var day := Slice(date, 3, 5);
    var digits := RandomNumber(draws);
    assert year + month + day + digits == (year + month + day) + digits;
    year + month + day + digits
  }

  /**
   For an eight-character `MM/DD/YY` date the identifier has sixteen
   characters and starts with year, month and day.
   */
  lemma TransactionIdOfDate(date: string, draws: seq<Digit>)
    requires |date| == 8 && |draws| == 10
    ensures var r := TransactionId(date, draws);
      && |r| == 16
      && r[0..2] == date[6..8] && r[2..4] == date[0..2] && r[4..6] == date[3..5]
      && forall i :: 6 <= i < 16 ==> IsDigit(r[i])
  {
    var r := TransactionId(date, draws);
    assert r[..6] == date[6..] + date[..2] + date[3..5];
    assert r[0..2] == r[..6][0..2];
    assert r[2..4] == r[..6][2..4];
    assert r[4..6] == r[..6][4..6];
    forall i | 6 <= i < 16
      ensures IsDigit(r[i])
    {
      assert r[i] == r[|r| - 10 + (i - 6)];
    }
  }

  /** The date "03/15/24" gives a sixteen-character identifier starting "240315". */
  lemma TransactionIdExample(date: string, draws: seq<Digit>)
    requires date == "03/15/24" && |draws| == 10
    ensures var r := TransactionId(date, draws); |r| == 16 && r[..6] == "240315"
  {
    TransactionIdOfDate(date, draws);
    var r := TransactionId(date, draws);
    assert date[6..8] == "24" && date[0..2] == "03" && date[3..5] == "15";
    assert r[..6] == r[0..2] + r[2..4] + r[4..6];
  }
}

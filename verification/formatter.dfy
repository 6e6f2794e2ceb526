/**
 `format_data`: the rows whose date is present and whose type is "Expense"
 are turned, in order, into receipt texts by running a fixed chain of
 `str.replace` calls over the template. Everything a row's text needs that
 the source computes with floating point, draws at random or fetches over
 the network is handed in per row as `RowDraws`.
 */
module Formatter {
  import opened Wrappers
  import opened PyStr
  import opened RandomTokens
  import opened Labels

  /** A spreadsheet row, read positionally. */
  type Row = seq<Cell>

  /** The Python exceptions `format_data` can raise on a malformed row. */
  datatype Error =
    | IndexError   // the row has fewer cells than a position it reads
    | TypeError    // a cell the row needs as text or number is empty

  /**
   What one receipt needs besides its row: the two-decimal renderings of the
   pre-tax amount, the tax and the total; the `randint` draws; and the
   address lookup, a function from the (unencoded) search text to the
   string `get_address` returns.
   */
  datatype RowDraws = RowDraws(
    amount: string,
    tax: string,
    total: string,
    hour: Hour,
    minute: Minute,
    reference: seq<int>,
    three: seq<Digit>,
    four: seq<Digit>,
    five: seq<Digit>,
    trans: seq<Digit>,
    geocode: string -> string)

  /** The draws come in the numbers the generators consume. */
  predicate WellFormed(d: RowDraws) {
    && ReferenceDraws(d.reference)
    && |d.three| == 3 && |d.four| == 4 && |d.five| == 5 && |d.trans| == 10
  }

  /** The placeholders, in the order `format_data` replaces them. */
  const Tokens: seq<string> := [
    "[CATEGORY]", "[DATE]", "[TYPE]", "[NUM]", "[NAME]", "[DESC]", "[ACCOUNT]",
    "[ACC]", "[AMOUNT]", "[TAX]", "[TOTAL]", "[TIME]", "[REF]", "[THREE]",
    "[FOUR]", "[FIVE]", "[TRANS]", "[BUSINESS]", "[CARD]", "[ADDRESS]"
  ]

  /** The text substituted for each placeholder of `Tokens`, position by position. */
  function Values(row: Row, d: RowDraws): (v: seq<string>)
    requires |row| >= 10 && row[8].Some? && WellFormed(d)
    ensures |v| == |Tokens|
  {
    [ Str(row[0]), Str(row[1]), Str(row[2]), Str(row[3]), Str(row[5]), Str(row[6]), Str(row[7]),
      Str(row[8]), d.amount, d.tax, d.total, RandomTime(d.hour, d.minute),
      RandomReference(d.reference), RandomNumber(d.three), RandomNumber(d.four),
      RandomNumber(d.five), TransactionId(Str(row[1]), d.trans),
      GetBusinessInfo(row[5], row[6]), GetCardInfo(row[8].value),
      WrapAddress(d.geocode(AddressQuery(Str(row[5]), Str(row[6])))) ]
  }

  /** The chain `t.replace(pats[0], reps[0]).replace(pats[1], reps[1])...`. */
  function ApplyAll(t: string, pats: seq<string>, reps: seq<string>): string
    requires |pats| == |reps|
    decreases |reps|
  {
    if |reps| == 0 then t
    else ApplyAll(Replace(t, pats[0], reps[0]), pats[1..], reps[1..])
  }

  /**
   The text of one qualifying row. A row shorter than ten cells raises
   `IndexError`; an empty total (`None / 1.0635`) or an empty card cell
   (`None[-5:-1]`) raises `TypeError`.
   */
  function FormatRow(template: string, row: Row, d: RowDraws): (r: Result<string, Error>)
    requires WellFormed(d)
    ensures r.Failure? <==> |row| < 10 || row[8].None? || row[9].None?
    ensures r.Failure? ==> r.error == (if |row| < 10 then IndexError else TypeError)
  {
    if |row| < 10 then Failure(IndexError)
    else if row[9].None? then Failure(TypeError)
    else if row[8].None? then Failure(TypeError)
    else Success(ApplyAll(template, Tokens, Values(row, d)))
  }

  /** The filter of `format_data`: a date is present and the type is exactly "Expense". */
  predicate Qualifies(row: Row) {
    |row| >= 3 && row[1].Some? && row[2] == Some("Expense")
  }

  /**
   The filter can be evaluated: `row[1]` exists, and `row[2]` exists
   whenever the date is present (`and` short-circuits on a missing date).
   */
  predicate Readable(row: Row) {
    |row| >= 2 && (row[1].None? || |row| >= 3)
  }

  /**
   One iteration of the loop of `format_data`: the text appended for the
   row (nothing, or exactly one string), or the exception raised.
   */
  function RowStep(template: string, row: Row, d: RowDraws): (r: Result<seq<string>, Error>)
    requires WellFormed(d)
    ensures r.Failure? <==> !Readable(row) || (Qualifies(row) && FormatRow(template, row, d).Failure?)
    ensures r.Failure? ==> r.error == (if Readable(row) then FormatRow(template, row, d).error else IndexError)
    ensures r.Success? && Qualifies(row) ==> r.value == [FormatRow(template, row, d).value]
    ensures r.Success? && !Qualifies(row) ==> r.value == []
  {
    if |row| < 2 then Failure(IndexError)
    else if row[1].None? then Success([])
    else if |row| < 3 then Failure(IndexError)
    else if row[2] != Some("Expense") then Success([])
    else
      match FormatRow(template, row, d)
      case Failure(e) => Failure(e)
      case Success(text) => Success([text])
  }

  /** The draws for every row are well formed. */
  predicate AllWellFormed(draws: seq<RowDraws>) {
    forall i :: 0 <= i < |draws| ==> WellFormed(draws[i])
  }

  /** The outcome of every row, in row order. */
  function Outcomes(rows: seq<Row>, template: string, draws: seq<RowDraws>): (s: seq<Result<seq<string>, Error>>)
    requires |draws| == |rows| && AllWellFormed(draws)
    ensures |s| == |rows|
    ensures forall i :: 0 <= i < |rows| ==> s[i] == RowStep(template, rows[i], draws[i])
  {
    seq(|rows|, i requires 0 <= i < |rows| && 0 <= i < |draws| && WellFormed(draws[i]) =>
      RowStep(template, rows[i], draws[i]))
  }

  /**
   The loop of `format_data` over the rows' outcomes: the texts are
   appended in order, and the first exception aborts the loop.
   */
  function RunRows(steps: seq<Result<seq<string>, Error>>): Result<seq<string>, Error>
  {
    if |steps| == 0 then Success([])
    else
      var n := |steps| - 1;
      match RunRows(steps[..n])
      case Failure(e) => Failure(e)
      case Success(done) =>
        match steps[n]
        case Failure(e) => Failure(e)
        case Success(out) => Success(done + out)
  }

  /**
   `format_data(rows, template)`; `draws[i]` is what row `i` consumes if it
   qualifies.
   */
  function FormatData(rows: seq<Row>, template: string, draws: seq<RowDraws>): Result<seq<string>, Error>
    requires |draws| == |rows| && AllWellFormed(draws)
  {
    RunRows(Outcomes(rows, template, draws))
  }

  /** The positions of the qualifying rows, in increasing order. */
  function QualifyingIndices(rows: seq<Row>): (idx: seq<nat>)
    ensures forall k :: 0 <= k < |idx| ==> idx[k] < |rows| && Qualifies(rows[idx[k]])
    ensures forall k, l :: 0 <= k < l < |idx| ==> idx[k] < idx[l]
    ensures forall i :: 0 <= i < |rows| && Qualifies(rows[i]) ==> i in idx
  {
    if |rows| == 0 then []
    else
      var n := |rows| - 1;
      QualifyingIndices(rows[..n]) + (if Qualifies(rows[n]) then [n] else [])
  }

  /** The loop completes exactly when no row raises. */
  lemma {:induction false} RunRowsSucceeds(steps: seq<Result<seq<string>, Error>>)
    ensures RunRows(steps).Success? <==> forall i :: 0 <= i < |steps| ==> steps[i].Success?
    decreases |steps|
  {
    if |steps| > 0 {
      var n := |steps| - 1;
      RunRowsSucceeds(steps[..n]);
      assert forall i :: 0 <= i < n ==> steps[..n][i] == steps[i];
    }
  }

  /** An aborted loop carries the exception of the first row that raised. */
  lemma {:induction false} RunRowsFirstError(steps: seq<Result<seq<string>, Error>>)
    requires RunRows(steps).Failure?
    ensures exists i ::
      && 0 <= i < |steps|
      && steps[i].Failure?
      && RunRows(steps).error == steps[i].error
      && (forall j :: 0 <= j < i ==> steps[j].Success?)
    decreases |steps|
  {
    var n := |steps| - 1;
    var pre := steps[..n];
    assert forall i :: 0 <= i < n ==> pre[i] == steps[i];
    if RunRows(pre).Failure? {
      RunRowsFirstError(pre);
      var i :| 0 <= i < |pre| && pre[i].Failure? && RunRows(pre).error == pre[i].error
        && forall j :: 0 <= j < i ==> pre[j].Success?;
      assert steps[i].Failure?;
    } else {
      RunRowsSucceeds(pre);
      assert steps[n].Failure?;
    }
  }

  /** Indices below a bound exist only when the bound is positive. */
  lemma BoundedIndices(idx: seq<nat>, bound: nat)
    requires forall k :: 0 <= k < |idx| ==> idx[k] < bound
    ensures |idx| > 0 ==> bound > 0
  {
    if |idx| > 0 {
      assert idx[0] < bound;
    }
  }

  /** In a strictly increasing list an earlier position holds a smaller index. */
  lemma Increasing(idx: seq<nat>, j: nat, m: nat)
    requires forall k, l :: 0 <= k < l < |idx| ==> idx[k] < idx[l]
    requires j < |idx| && m < |idx|
    ensures j < m ==> idx[j] < idx[m]
  {
  }

  /**
   In a strictly increasing list of indices below `n + 1` that holds `n`,
   `n` comes last, and dropping it keeps exactly the indices below `n`.
   */
  lemma LastIndex(idx: seq<nat>, n: nat)
    requires forall k :: 0 <= k < |idx| ==> idx[k] <= n
    requires forall k, l :: 0 <= k < l < |idx| ==> idx[k] < idx[l]
    requires n in idx
    ensures |idx| > 0 && idx[|idx| - 1] == n
    ensures forall i :: 0 <= i < n ==> (i in idx[..|idx| - 1] <==> i in idx)
  {
    var m := |idx| - 1;
    var j :| 0 <= j < |idx| && idx[j] == n;
    Increasing(idx, j, m);
    forall i | 0 <= i < n && i in idx
      ensures i in idx[..m]
    {
      var k :| 0 <= k < |idx| && idx[k] == i;
      assert k != m;
      assert idx[..m][k] == i;
    }
  }

  /**
   When every row yields at most one text, the loop's output lists, in
   order, the texts of exactly the rows `idx` names.
   */
  lemma {:induction false} RunRowsEmits(steps: seq<Result<seq<string>, Error>>, idx: seq<nat>)
    requires forall i :: 0 <= i < |steps| ==> steps[i].Success? && |steps[i].value| <= 1
    requires forall k :: 0 <= k < |idx| ==> idx[k] < |steps|
    requires forall k, l :: 0 <= k < l < |idx| ==> idx[k] < idx[l]
    requires forall i :: 0 <= i < |steps| ==> (i in idx <==> |steps[i].value| == 1)
    ensures RunRows(steps).Success?
    ensures |RunRows(steps).value| == |idx|
    ensures forall k :: 0 <= k < |idx| ==> steps[idx[k]].value == [RunRows(steps).value[k]]
    decreases |steps|
  {
    RunRowsSucceeds(steps);
    BoundedIndices(idx, |steps|);
    if |steps| > 0 {
      var n := |steps| - 1;
      var pre := steps[..n];
      assert forall i :: 0 <= i < n ==> pre[i] == steps[i];
      var out := RunRows(steps).value;
      assert out == RunRows(pre).value + steps[n].value;
      if |steps[n].value| == 1 {
        var m := |idx| - 1;
        assert n in idx;
        LastIndex(idx, n);
        var ip := idx[..m];
        forall i | 0 <= i < |pre|
          ensures i in ip <==> |pre[i].value| == 1
        {
          assert i in ip <==> i in idx;
        }
        RunRowsEmits(pre, ip);
        forall k | 0 <= k < |idx|
          ensures steps[idx[k]].value == [out[k]]
        {
          if k < m {
            assert idx[k] == ip[k];
          }
        }
      } else {
        assert steps[n].value == [];
        forall k | 0 <= k < |idx|
          ensures idx[k] < n
        {
          assert idx[k] != n;
        }
        RunRowsEmits(pre, idx);
      }
    }
  }

  /**
   `format_data` succeeds exactly when every row's filter can be evaluated
   and every qualifying row can be formatted.
   */
  lemma FormatDataSucceeds(rows: seq<Row>, template: string, draws: seq<RowDraws>)
    requires |draws| == |rows| && AllWellFormed(draws)
    ensures FormatData(rows, template, draws).Success? <==>
      forall i :: 0 <= i < |rows| ==>
        Readable(rows[i]) && (Qualifies(rows[i]) ==> FormatRow(template, rows[i], draws[i]).Success?)
  {
    RunRowsSucceeds(Outcomes(rows, template, draws));
  }

  /**
   When `format_data` succeeds it returns one text per qualifying row, in
   row order, each the text of that row; other rows contribute nothing.
   */
  lemma FormatDataSelects(rows: seq<Row>, template: string, draws: seq<RowDraws>)
    requires |draws| == |rows| && AllWellFormed(draws)
    requires FormatData(rows, template, draws).Success?
    ensures var out := FormatData(rows, template, draws).value;
      var idx := QualifyingIndices(rows);
      && |out| == |idx|
      && forall k :: 0 <= k < |idx| ==> FormatRow(template, rows[idx[k]], draws[idx[k]]) == Success(out[k])
  {
    var steps := Outcomes(rows, template, draws);
    var idx := QualifyingIndices(rows);
    RunRowsSucceeds(steps);
    forall i | 0 <= i < |steps|
      ensures steps[i].Success? && |steps[i].value| <= 1
      ensures i in idx <==> |steps[i].value| == 1
    {
      assert steps[i] == RowStep(template, rows[i], draws[i]);
    }
    RunRowsEmits(steps, idx);
    var out := RunRows(steps).value;
    forall k | 0 <= k < |idx|
      ensures FormatRow(template, rows[idx[k]], draws[idx[k]]) == Success(out[k])
    {
      var i := idx[k];
      assert steps[i] == RowStep(template, rows[i], draws[i]);
    }
  }

  /** When `format_data` raises, it raises what the first failing row raises. */
  lemma FormatDataFirstError(rows: seq<Row>, template: string, draws: seq<RowDraws>)
    requires |draws| == |rows| && AllWellFormed(draws)
    requires FormatData(rows, template, draws).Failure?
    ensures exists i ::
      && 0 <= i < |rows|
      && RowStep(template, rows[i], draws[i]).Failure?
      && FormatData(rows, template, draws).error == RowStep(template, rows[i], draws[i]).error
      && (forall j :: 0 <= j < i ==> RowStep(template, rows[j], draws[j]).Success?)
  {
    var steps := Outcomes(rows, template, draws);
    RunRowsFirstError(steps);
    var i :| 0 <= i < |steps| && steps[i].Failure? && RunRows(steps).error == steps[i].error
      && forall j :: 0 <= j < i ==> steps[j].Success?;
    assert RowStep(template, rows[i], draws[i]).Failure?;
  }

  /**
   The number of texts is the number of qualifying rows: the positions
   `QualifyingIndices` lists are exactly the qualifying ones, once each.
   */
  lemma {:induction false} QualifyingCount(rows: seq<Row>)
    ensures |QualifyingIndices(rows)| == |QualifyingSet(rows)|
    decreases |rows|
  {
    if |rows| > 0 {
      var n := |rows| - 1;
      QualifyingCount(rows[..n]);
      QualifyingSetStep(rows);
      assert QualifyingIndices(rows) == QualifyingIndices(rows[..n]) + (if Qualifies(rows[n]) then [n] else []);
      assert n !in QualifyingSet(rows[..n]);
    }
  }

  /** The positions of the qualifying rows, as a set. */
  ghost function QualifyingSet(rows: seq<Row>): set<int> {
    set i | 0 <= i < |rows| && Qualifies(rows[i])
  }

  /** Adding a row adds its own position to the set exactly when it qualifies. */
  lemma QualifyingSetStep(rows: seq<Row>)
    requires |rows| > 0
    ensures QualifyingSet(rows)
      == QualifyingSet(rows[..|rows| - 1]) + (if Qualifies(rows[|rows| - 1]) then {|rows| - 1} else {})
  {
    var n := |rows| - 1;
    var pre := rows[..n];
    forall i | 0 <= i < n
      ensures pre[i] == rows[i]
    {
    }
  }

  /** The chain leaves alone a text in which none of its patterns occurs. */
  lemma {:induction false} ApplyAllAbsent(t: string, pats: seq<string>, reps: seq<string>)
    requires |pats| == |reps|
    requires forall k :: 0 <= k < |pats| ==> !IsInfix(pats[k], t)
    ensures ApplyAll(t, pats, reps) == t
    decreases |pats|
  {
    if |pats| > 0 {
      ReplaceAbsent(t, pats[0], reps[0]);
      ApplyAllAbsent(t, pats[1..], reps[1..]);
    }
  }

  /**
   A text that is exactly the `j`-th pattern, untouched by the patterns
   before it, becomes the `j`-th replacement, provided no later pattern
   occurs in that replacement.
   */
  lemma {:induction false} ApplyAllSingle(t: string, pats: seq<string>, reps: seq<string>, j: nat)
    requires |pats| == |reps| && j < |pats|
    requires t == pats[j] && |t| > 0
    requires forall k :: 0 <= k < j ==> !IsInfix(pats[k], t)
    requires forall k :: j < k < |pats| ==> !IsInfix(pats[k], reps[j])
    ensures ApplyAll(t, pats, reps) == reps[j]
    decreases j
  {
    if j == 0 {
      ReplaceWhole(t, reps[0]);
      ApplyAllAbsent(reps[0], pats[1..], reps[1..]);
    } else {
      ReplaceAbsent(t, pats[0], reps[0]);
      ApplyAllSingle(t, pats[1..], reps[1..], j - 1);
    }
  }

  /** A placeholder: "[", a name without brackets, "]". */
  predicate IsToken(p: string) {
    && |p| >= 2 && p[0] == '[' && p[|p| - 1] == ']'
    && forall i :: 0 < i < |p| - 1 ==> p[i] != '[' && p[i] != ']'
  }

  /** One placeholder occurs inside another only if they are the same. */
  lemma TokenInfix(p: string, s: string)
    requires IsToken(p) && IsToken(s) && IsInfix(p, s)
    ensures p == s
  {
    var i :| 0 <= i && OccursAt(p, s, i);
    assert s[i] == s[i..i + |p|][0] == '[';
    assert i == 0;
    assert s[|p| - 1] == s[..|p|][|p| - 1] == ']';
    assert s == s[..|p|];
  }

  /** A text without "[" contains no placeholder. */
  lemma NoBracketNoToken(p: string, s: string)
    requires IsToken(p) && forall i :: 0 <= i < |s| ==> s[i] != '['
    ensures !IsInfix(p, s)
  {
    forall i: nat | OccursAt(p, s, i)
      ensures s[i] == '['
    {
      assert s[i] == s[i..i + |p|][0];
    }
  }

  /** Every entry of the vocabulary is a placeholder, and no two are equal. */
  lemma TokensWellFormed()
    ensures forall k :: 0 <= k < |Tokens| ==> IsToken(Tokens[k])
    ensures forall j, k :: 0 <= j < k < |Tokens| ==> Tokens[j] != Tokens[k]
  {
  }

  /** A row `format_data` can format: ten cells, with a card and a total. */
  predicate Formattable(row: Row) {
    |row| >= 10 && row[8].Some? && row[9].Some?
  }

  /** A template in which no placeholder occurs comes out unchanged. */
  lemma FormatRowPlainTemplate(template: string, row: Row, d: RowDraws)
    requires WellFormed(d) && Formattable(row)
    requires forall k :: 0 <= k < |Tokens| ==> !IsInfix(Tokens[k], template)
    ensures FormatRow(template, row, d) == Success(template)
  {
    ApplyAllAbsent(template, Tokens, Values(row, d));
  }

  /**
   A template that is exactly the `j`-th placeholder becomes that
   placeholder's value, provided the value holds no placeholder replaced
   after it.
   */
  lemma FormatRowSingleToken(row: Row, d: RowDraws, j: nat)
    requires WellFormed(d) && Formattable(row) && j < |Tokens|
    requires forall k :: j < k < |Tokens| ==> !IsInfix(Tokens[k], Values(row, d)[j])
    ensures FormatRow(Tokens[j], row, d) == Success(Values(row, d)[j])
  {
    TokensApart(j);
    ApplyAllSingle(Tokens[j], Tokens, Values(row, d), j);
  }

  /** No placeholder occurs inside a different one. */
  lemma TokensApart(j: nat)
    requires j < |Tokens|
    ensures forall k :: 0 <= k < |Tokens| && k != j ==> !IsInfix(Tokens[k], Tokens[j])
  {
    TokensWellFormed();
    forall k | 0 <= k < |Tokens| && k != j
      ensures !IsInfix(Tokens[k], Tokens[j])
    {
      if IsInfix(Tokens[k], Tokens[j]) {
        TokenInfix(Tokens[k], Tokens[j]);
      }
    }
  }

  /** The template "[CARD]" yields the card digits `card[-5:-1]`. */
  lemma FormatRowCard(row: Row, d: RowDraws)
    requires WellFormed(d) && Formattable(row)
    ensures FormatRow("[CARD]", row, d) == Success(GetCardInfo(row[8].value))
  {
    var v := Values(row, d);
    assert Tokens[18] == "[CARD]" && v[18] == GetCardInfo(row[8].value);
    assert |Tokens[19]| > |v[18]|;
    FormatRowSingleToken(row, d, 18);
  }

  /** The template "[TIME]" yields the drawn time of day. */
  lemma FormatRowTime(row: Row, d: RowDraws)
    requires WellFormed(d) && Formattable(row)
    ensures FormatRow("[TIME]", row, d) == Success(RandomTime(d.hour, d.minute))
  {
    var v := Values(row, d);
    assert Tokens[11] == "[TIME]" && v[11] == RandomTime(d.hour, d.minute);
    TokensWellFormed();
    forall k | 11 < k < |Tokens|
      ensures !IsInfix(Tokens[k], v[11])
    {
      NoBracketNoToken(Tokens[k], v[11]);
    }
    FormatRowSingleToken(row, d, 11);
  }

  /**
   Replacement is not simultaneous: a cell whose text is a placeholder that
   is replaced later is itself replaced. A category cell reading "[TYPE]"
   turns the template "[CATEGORY]" into the row's type, "Expense".
   */
  lemma FormatRowRewritesCellText(row: Row, d: RowDraws)
    requires WellFormed(d) && Formattable(row) && Qualifies(row)
    requires row[0] == Some("[TYPE]")
    ensures FormatRow("[CATEGORY]", row, d) == Success("Expense")
  {
    var v := Values(row, d);
    assert v[0] == Tokens[2] && v[2] == "Expense";
    TokensApart(2);
    NoTokenIn("Expense");
    ApplyAllRelay(Tokens, v, 2);
  }

  /** No placeholder occurs in a text without "[". */
  lemma NoTokenIn(s: string)
    requires forall i :: 0 <= i < |s| ==> s[i] != '['
    ensures forall k :: 0 <= k < |Tokens| ==> !IsInfix(Tokens[k], s)
  {
    TokensWellFormed();
    forall k | 0 <= k < |Tokens|
      ensures !IsInfix(Tokens[k], s)
    {
      NoBracketNoToken(Tokens[k], s);
    }
  }

  /**
   When the first pattern's replacement is the `j`-th pattern, a text that
   is exactly the first pattern is carried on to the `j`-th replacement.
   */
  lemma ApplyAllRelay(pats: seq<string>, reps: seq<string>, j: nat)
    requires |pats| == |reps| && 0 < j < |pats|
    requires |pats[0]| > 0 && |pats[j]| > 0 && reps[0] == pats[j]
    requires forall k :: 0 < k < j ==> !IsInfix(pats[k], pats[j])
    requires forall k :: j < k < |pats| ==> !IsInfix(pats[k], reps[j])
    ensures ApplyAll(pats[0], pats, reps) == reps[j]
  {
    ReplaceWhole(pats[0], reps[0]);
    assert ApplyAll(pats[0], pats, reps) == ApplyAll(pats[j], pats[1..], reps[1..]);
    ApplyAllSingle(pats[j], pats[1..], reps[1..], j - 1);
  }
}

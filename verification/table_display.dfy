/**
 The value logic of the table display helper: reading the number out of a
 cell (`extract_numbers`) and the column sort behind each header (`sort_table`).

 A table is a sequence of rows, each an item id with its cell values. A sort
 reorders the rows stably by the column's key, a number or the lower-cased
 text, ascending or descending, and rebinds the header to the opposite direction.
 */
module TableDisplay {
  import opened Strings

  // ---------------------------------------------------------------------------
  // extract_numbers
  // ---------------------------------------------------------------------------

  /** `extract_numbers`: the digits of `text`, in order, read as one decimal number; 0 when there are none. */
  function ExtractNumbers(text: string): (n: nat)
    ensures (forall i :: 0 <= i < |text| ==> !IsDigit(text[i])) ==> n == 0
    ensures n < Pow10(|DigitsOf(text)|)
  {
    var digits := DigitsOf(text);
    DecimalValueBound(digits);
    if |digits| > 0 then DecimalValue(digits) else 0
  }

  /** A non-digit character anywhere in the text does not change the number. */
  lemma ExtractNumbersIgnoresNonDigit(a: string, c: char, b: string)
    requires !IsDigit(c)
    ensures ExtractNumbers(a + [c] + b) == ExtractNumbers(a + b)
  {
    DigitsOfConcat(a + [c], b);
    DigitsOfConcat(a, [c]);
    DigitsOfConcat(a, b);
    assert DigitsOf([c]) == [];
    assert DigitsOf(a + [c]) == DigitsOf(a);
  }

  /** The number of a concatenation: the first part's digits are shifted left past the second part's. */
  lemma ExtractNumbersConcat(a: string, b: string)
    ensures ExtractNumbers(a + b) == ExtractNumbers(a) * Pow10(|DigitsOf(b)|) + ExtractNumbers(b)
  {
    DigitsOfConcat(a, b);
    DecimalValueConcat(DigitsOf(a), DigitsOf(b));
  }

  /** The number in the rendering of `n` is `n`. */
  lemma ExtractNumbersOfRendering(n: nat)
    ensures ExtractNumbers(NatToString(n)) == n
  {
    DigitsOfAllDigits(NatToString(n));
    DecimalValueOfNatToString(n);
  }

  /** `extract_numbers(str(extract_numbers(t))) == extract_numbers(t)`. */
  lemma ExtractNumbersFixpoint(text: string)
    ensures ExtractNumbers(NatToString(ExtractNumbers(text))) == ExtractNumbers(text)
  {
    ExtractNumbersOfRendering(ExtractNumbers(text));
  }

  lemma {:induction false} DigitsOfStripLeft(s: string)
    ensures DigitsOf(StripLeft(s)) == DigitsOf(s)
    decreases |s|
  {
    if |s| > 0 && IsIntSpace(s[0]) {
      DigitsOfStripLeft(s[1..]);
    }
  }

  lemma {:induction false} DigitsOfStripRight(s: string)
    ensures DigitsOf(StripRight(s)) == DigitsOf(s)
    decreases |s|
  {
    if |s| > 0 && IsIntSpace(s[|s| - 1]) {
      var init := s[..|s| - 1];
      DigitsOfStripRight(init);
      assert s == init + [s[|s| - 1]];
      DigitsOfConcat(init, [s[|s| - 1]]);
    }
  }

  /** Stripping white space keeps every digit. */
  lemma DigitsOfStrip(s: string)
    ensures DigitsOf(Strip(s)) == DigitsOf(s)
  {
    DigitsOfStripLeft(s);
    DigitsOfStripRight(StripLeft(s));
  }

  /**
   When the text is an integer literal `int()` accepts, its digits spell the
   literal's magnitude: signs, white space and digit-group underscores are
   not digits.
   */
  lemma ExtractNumbersOfIntLiteral(s: string)
    requires ParseInt(s).Some?
    ensures ExtractNumbers(s) == if ParseInt(s).value < 0 then -ParseInt(s).value else ParseInt(s).value
  {
    var t := Strip(s);
    DigitsOfStrip(s);
    if 0 < |t| && (t[0] == '+' || t[0] == '-') {
      assert t == [t[0]] + t[1..];
      DigitsOfConcat([t[0]], t[1..]);
      assert DigitsOf([t[0]]) == [];
      assert IsDigit(t[1..][0]) && DigitsOf(t[1..]) != [];
    } else {
      assert IsDigit(t[0]) && DigitsOf(t) != [];
    }
  }

  // ---------------------------------------------------------------------------
  // Sort keys
  // ---------------------------------------------------------------------------

  /** The key a row sorts by: the number in its cell, or its cell lower-cased. */
  datatype SortKey = Numeric(n: nat) | Textual(s: string)

  /** Python's string comparison `a <= b`: lexicographic by code point. */
  predicate LexLe(a: string, b: string)
    decreases |a|
  {
    |a| == 0 || (|b| > 0 && (a[0] < b[0] || (a[0] == b[0] && LexLe(a[1..], b[1..]))))
  }

  lemma {:induction false} LexLeTotal(a: string, b: string)
    ensures LexLe(a, b) || LexLe(b, a)
    decreases |a|
  {
    if |a| > 0 && |b| > 0 && a[0] == b[0] {
      LexLeTotal(a[1..], b[1..]);
    }
  }

  lemma {:induction false} LexLeAntisymmetric(a: string, b: string)
    requires LexLe(a, b) && LexLe(b, a)
    ensures a == b
    decreases |a|
  {
    if |a| > 0 {
      LexLeAntisymmetric(a[1..], b[1..]);
      assert a == [a[0]] + a[1..] && b == [b[0]] + b[1..];
    }
  }

  lemma {:induction false} LexLeTransitive(a: string, b: string, c: string)
    requires LexLe(a, b) && LexLe(b, c)
    ensures LexLe(a, c)
    decreases |a|
  {
    if |a| > 0 && a[0] == b[0] && b[0] == c[0] {
      LexLeTransitive(a[1..], b[1..], c[1..]);
    }
  }

  /** Key order: numbers by value, texts lexicographically; a column never mixes the two. */
  predicate KeyLe(a: SortKey, b: SortKey) {
    match (a, b)
    case (Numeric(x), Numeric(y)) => x <= y
    case (Textual(x), Textual(y)) => LexLe(x, y)
    case (Numeric(_), Textual(_)) => true
    case (Textual(_), Numeric(_)) => false
  }

  /** `a` may stand before `b` in a sort of the given direction. */
  predicate Before(a: SortKey, b: SortKey, reverse: bool) {
    if reverse then KeyLe(b, a) else KeyLe(a, b)
  }

  lemma BeforeTotal(a: SortKey, b: SortKey, reverse: bool)
    ensures Before(a, b, reverse) || Before(b, a, reverse)
  {
    if a.Textual? && b.Textual? {
      LexLeTotal(a.s, b.s);
    }
  }

  lemma BeforeAntisymmetric(a: SortKey, b: SortKey, reverse: bool)
    requires Before(a, b, reverse) && Before(b, a, reverse)
    ensures a == b
  {
    if a.Textual? && b.Textual? {
      LexLeAntisymmetric(a.s, b.s);
    }
  }

  lemma BeforeTransitive(a: SortKey, b: SortKey, c: SortKey, reverse: bool)
    requires Before(a, b, reverse) && Before(b, c, reverse)
    ensures Before(a, c, reverse)
  {
    if a.Textual? && b.Textual? && c.Textual? {
      if reverse {
        LexLeTransitive(c.s, b.s, a.s);
      } else {
        LexLeTransitive(a.s, b.s, c.s);
      }
    }
  }

  // ---------------------------------------------------------------------------
  // Rows and the stable sort
  // ---------------------------------------------------------------------------

  /** A table row: the Treeview item id and its cell values by column. */
  datatype Row = Row(item: string, values: map<string, string>)

  /** What a header click runs: the column, the direction, and whether the column sorts numerically. */
  datatype SortCommand = SortCommand(column: string, reverse: bool, numeric: bool)

  /** `table.set(item, col)`: a cell never filled reads as the empty string. */
  function Cell(row: Row, column: string): string {
    if column in row.values then row.values[column] else ""
  }

  /** The key function handed to the sort: the cell's number, or the cell lower-cased. */
  function KeyOf(row: Row, column: string, numeric: bool): SortKey {
    if numeric then Numeric(ExtractNumbers(Cell(row, column))) else Textual(Lower(Cell(row, column)))
  }

  /** A row together with the key the sort computed for it once, as `list.sort(key=...)` does. */
  datatype Keyed = Keyed(key: SortKey, row: Row)

  function Decorate(rows: seq<Row>, column: string, numeric: bool): seq<Keyed> {
    seq(|rows|, i requires 0 <= i < |rows| => Keyed(KeyOf(rows[i], column, numeric), rows[i]))
  }

  function Undecorate(ks: seq<Keyed>): seq<Row> {
    seq(|ks|, i requires 0 <= i < |ks| => ks[i].row)
  }

  /** Every pair carries the key its row has in the given column. */
  predicate KeysFit(ks: seq<Keyed>, column: string, numeric: bool) {
    forall i :: 0 <= i < |ks| ==> ks[i].key == KeyOf(ks[i].row, column, numeric)
  }

  /** Decorating the rows of correctly keyed pairs gives the pairs back. */
  lemma DecorateUndecorate(ks: seq<Keyed>, column: string, numeric: bool)
    requires KeysFit(ks, column, numeric)
    ensures Decorate(Undecorate(ks), column, numeric) == ks
  {
  }

  /** The pairs whose key is `k`, in order. */
  function Select(ks: seq<Keyed>, k: SortKey): seq<Keyed>
    decreases |ks|
  {
    if |ks| == 0 then []
    else Select(ks[..|ks| - 1], k) + (if ks[|ks| - 1].key == k then [ks[|ks| - 1]] else [])
  }

  lemma {:induction false} SelectConcat(a: seq<Keyed>, b: seq<Keyed>, k: SortKey)
    ensures Select(a + b, k) == Select(a, k) + Select(b, k)
    decreases |b|
  {
    if |b| == 0 {
      assert a + b == a;
    } else {
      assert (a + b)[..|a + b| - 1] == a + b[..|b| - 1];
      SelectConcat(a, b[..|b| - 1], k);
    }
  }

  lemma SelectSingle(x: Keyed, k: SortKey)
    ensures Select([x], k) == if x.key == k then [x] else []
  {
    assert [x][..0] == [];
  }

  /** Every selected pair has the selected key and comes from the sequence. */
  lemma {:induction false} SelectMembers(ks: seq<Keyed>, k: SortKey)
    ensures forall x :: x in Select(ks, k) ==> x in ks && x.key == k
    decreases |ks|
  {
    if |ks| > 0 {
      SelectMembers(ks[..|ks| - 1], k);
    }
  }

  /** A pair of the sequence is among the pairs selected by its own key. */
  lemma {:induction false} SelectHas(ks: seq<Keyed>, i: int)
    requires 0 <= i < |ks|
    ensures ks[i] in Select(ks, ks[i].key)
    decreases |ks|
  {
    if i < |ks| - 1 {
      SelectHas(ks[..|ks| - 1], i);
    }
  }

  lemma SelectFirst(ks: seq<Keyed>, k: SortKey)
    requires 0 < |ks|
    ensures Select(ks, k) == (if ks[0].key == k then [ks[0]] else []) + Select(ks[1..], k)
  {
    assert ks == [ks[0]] + ks[1..];
    SelectConcat([ks[0]], ks[1..], k);
    SelectSingle(ks[0], k);
  }

  /** The pairs stand in the order of their keys in the given direction. */
  predicate Sorted(ks: seq<Keyed>, reverse: bool) {
    forall i, j :: 0 <= i < j < |ks| ==> Before(ks[i].key, ks[j].key, reverse)
  }

  /** The index before which `x` is inserted: past every pair that may stand before it. */
  function InsertPos(ks: seq<Keyed>, x: Keyed, reverse: bool): (p: nat)
    ensures p <= |ks|
    ensures forall i :: 0 <= i < p ==> Before(ks[i].key, x.key, reverse)
    ensures p < |ks| ==> !Before(ks[p].key, x.key, reverse)
    decreases |ks|
  {
    if |ks| == 0 || !Before(ks[0].key, x.key, reverse) then 0
    else
      var p := InsertPos(ks[1..], x, reverse);
      assert forall i :: 1 <= i < p + 1 ==> ks[i] == ks[1..][i - 1];
      p + 1
  }

  function Insert(ks: seq<Keyed>, x: Keyed, reverse: bool): seq<Keyed> {
    var p := InsertPos(ks, x, reverse);
    ks[..p] + [x] + ks[p..]
  }

  /** Stable insertion sort: each pair in turn is placed after every pair already placed that may stand before it. */
  function Sort(ks: seq<Keyed>, reverse: bool): seq<Keyed>
    decreases |ks|
  {
    if |ks| == 0 then []
    else Insert(Sort(ks[..|ks| - 1], reverse), ks[|ks| - 1], reverse)
  }

  /** Where each element of an insertion comes from. */
  lemma InsertIndices(ks: seq<Keyed>, x: Keyed, reverse: bool)
    ensures var p, r := InsertPos(ks, x, reverse), Insert(ks, x, reverse);
            && |r| == |ks| + 1 && r[p] == x
            && (forall i :: 0 <= i < p ==> r[i] == ks[i])
            && (forall i :: p < i < |r| ==> r[i] == ks[i - 1])
  {
  }

  /** Inserting into a sorted sequence keeps it sorted. */
  lemma InsertSorted(ks: seq<Keyed>, x: Keyed, reverse: bool)
    requires Sorted(ks, reverse)
    ensures Sorted(Insert(ks, x, reverse), reverse)
  {
    var p := InsertPos(ks, x, reverse);
    var r := Insert(ks, x, reverse);
    InsertIndices(ks, x, reverse);
    if p < |ks| {
      BeforeTotal(ks[p].key, x.key, reverse);
    }
    forall i | p < i < |r|
      ensures Before(x.key, r[i].key, reverse)
    {
      if i - 1 > p {
        BeforeTransitive(x.key, ks[p].key, ks[i - 1].key, reverse);
      }
    }
    forall i, j | 0 <= i < j < |r|
      ensures Before(r[i].key, r[j].key, reverse)
    {
      if i < p && j > p {
        BeforeTransitive(r[i].key, x.key, r[j].key, reverse);
      }
    }
  }

  /** Insertion adds exactly the inserted pair. */
  lemma InsertMultiset(ks: seq<Keyed>, x: Keyed, reverse: bool)
    ensures multiset(Insert(ks, x, reverse)) == multiset(ks) + multiset{x}
  {
    var p := InsertPos(ks, x, reverse);
    assert ks == ks[..p] + ks[p..];
  }

  /** A sequence without the key selects nothing for it. */
  lemma {:induction false} SelectNone(ks: seq<Keyed>, k: SortKey)
    requires forall i :: 0 <= i < |ks| ==> ks[i].key != k
    ensures Select(ks, k) == []
    decreases |ks|
  {
    if |ks| > 0 {
      SelectNone(ks[..|ks| - 1], k);
    }
  }

  /** No pair after the insertion point shares the inserted pair's key. */
  lemma InsertTailHasOtherKeys(ks: seq<Keyed>, x: Keyed, reverse: bool)
    requires Sorted(ks, reverse)
    ensures Select(ks[InsertPos(ks, x, reverse)..], x.key) == []
  {
    var p := InsertPos(ks, x, reverse);
    var tail := ks[p..];
    BeforeTotal(x.key, x.key, reverse);
    forall i | 0 <= i < |tail|
      ensures tail[i].key != x.key
    {
      if i > 0 {
        assert Before(ks[p].key, ks[p + i].key, reverse);
      }
    }
    SelectNone(tail, x.key);
  }

  /** Selecting from a sequence split at `p` selects from both halves. */
  lemma SelectSplit(ks: seq<Keyed>, p: int, k: SortKey)
    requires 0 <= p <= |ks|
    ensures Select(ks, k) == Select(ks[..p], k) + Select(ks[p..], k)
  {
    assert ks == ks[..p] + ks[p..];
    SelectConcat(ks[..p], ks[p..], k);
  }

  lemma SelectInsert(ks: seq<Keyed>, x: Keyed, reverse: bool, k: SortKey)
    ensures var p := InsertPos(ks, x, reverse);
            Select(Insert(ks, x, reverse), k) == (Select(ks[..p], k) + Select([x], k)) + Select(ks[p..], k)
  {
    var p := InsertPos(ks, x, reverse);
    SelectConcat(ks[..p] + [x], ks[p..], k);
    SelectConcat(ks[..p], [x], k);
  }

  /** Insertion appends the pair to the pairs of its key and leaves every other key's pairs alone. */
  lemma InsertSelect(ks: seq<Keyed>, x: Keyed, reverse: bool, k: SortKey)
    requires Sorted(ks, reverse)
    ensures Select(Insert(ks, x, reverse), k) == Select(ks, k) + Select([x], k)
  {
    var p := InsertPos(ks, x, reverse);
    SelectInsert(ks, x, reverse, k);
    SelectSplit(ks, p, k);
    SelectSingle(x, k);
    if x.key == k {
      InsertTailHasOtherKeys(ks, x, reverse);
    }
  }

  /**
   The sort's promise: the result is sorted in the given direction, is a
   permutation of the input, and keeps pairs of equal key in their original
   relative order (the pairs of each key are the same sequence before and after).
   */
  lemma {:induction false} SortSpec(ks: seq<Keyed>, reverse: bool)
    ensures Sorted(Sort(ks, reverse), reverse)
    ensures multiset(Sort(ks, reverse)) == multiset(ks)
    ensures forall k :: Select(Sort(ks, reverse), k) == Select(ks, k)
    decreases |ks|
  {
    if |ks| > 0 {
      var init, last := ks[..|ks| - 1], ks[|ks| - 1];
      SortSpec(init, reverse);
      InsertSorted(Sort(init, reverse), last, reverse);
      InsertMultiset(Sort(init, reverse), last, reverse);
      assert ks == init + [last];
      forall k
        ensures Select(Sort(ks, reverse), k) == Select(ks, k)
      {
        InsertSelect(Sort(init, reverse), last, reverse, k);
        SelectConcat(init, [last], k);
      }
    }
  }

  /** Sequences whose key selections agree share every key. */
  lemma SameSelectsShareKey(a: seq<Keyed>, b: seq<Keyed>, i: int)
    requires 0 <= i < |a|
    requires forall k :: Select(a, k) == Select(b, k)
    ensures exists j :: 0 <= j < |b| && b[j].key == a[i].key
  {
    SelectHas(a, i);
    SelectMembers(b, a[i].key);
    assert a[i] in Select(b, a[i].key);
  }

  /** Sequences whose key selections agree are both empty or both not. */
  lemma SameSelectsSameEmptiness(a: seq<Keyed>, b: seq<Keyed>)
    requires forall k :: Select(a, k) == Select(b, k)
    ensures |a| == 0 <==> |b| == 0
  {
    if 0 < |a| {
      SameSelectsShareKey(a, b, 0);
    }
    if 0 < |b| {
      SameSelectsShareKey(b, a, 0);
    }
  }

  /** The first key of a sorted sequence may stand before every key in it. */
  lemma SortedFirst(ks: seq<Keyed>, reverse: bool, j: int)
    requires Sorted(ks, reverse) && 0 <= j < |ks|
    ensures Before(ks[0].key, ks[j].key, reverse)
  {
    if j == 0 {
      BeforeTotal(ks[0].key, ks[0].key, reverse);
    }
  }

  /** Two nonempty sorted sequences with the same key selections start with the same key. */
  lemma SortedSameFirstKey(a: seq<Keyed>, b: seq<Keyed>, reverse: bool)
    requires Sorted(a, reverse) && Sorted(b, reverse) && 0 < |a| && 0 < |b|
    requires forall k :: Select(a, k) == Select(b, k)
    ensures a[0].key == b[0].key
  {
    SameSelectsShareKey(a, b, 0);
    var j :| 0 <= j < |b| && b[j].key == a[0].key;
    SortedFirst(b, reverse, j);
    SameSelectsShareKey(b, a, 0);
    var i :| 0 <= i < |a| && a[i].key == b[0].key;
    SortedFirst(a, reverse, i);
    BeforeAntisymmetric(a[0].key, b[0].key, reverse);
  }

  /** Two nonempty sorted sequences with the same key selections start with the same pair. */
  lemma SortedSameHead(a: seq<Keyed>, b: seq<Keyed>, reverse: bool)
    requires Sorted(a, reverse) && Sorted(b, reverse) && 0 < |a| && 0 < |b|
    requires forall k :: Select(a, k) == Select(b, k)
    ensures a[0] == b[0]
  {
    SortedSameFirstKey(a, b, reverse);
    var k := a[0].key;
    SelectFirst(a, k);
    SelectFirst(b, k);
    assert Select(a, k)[0] == a[0];
    assert Select(b, k)[0] == b[0];
  }

  /** Dropping equal heads keeps the key selections equal. */
  lemma SameSelectsTails(a: seq<Keyed>, b: seq<Keyed>)
    requires 0 < |a| && 0 < |b| && a[0] == b[0]
    requires forall k :: Select(a, k) == Select(b, k)
    ensures forall k :: Select(a[1..], k) == Select(b[1..], k)
  {
    forall k
      ensures Select(a[1..], k) == Select(b[1..], k)
    {
      SelectFirst(a, k);
      SelectFirst(b, k);
      if a[0].key == k {
        assert Select(a[1..], k) == Select(a, k)[1..];
        assert Select(b[1..], k) == Select(b, k)[1..];
      } else {
        assert Select(a[1..], k) == Select(a, k);
        assert Select(b[1..], k) == Select(b, k);
      }
    }
  }

  /**
   A sorted sequence is determined by the pairs of each key: two sequences
   sorted in the same direction whose key selections agree are equal.
   */
  lemma {:induction false} SortedUnique(a: seq<Keyed>, b: seq<Keyed>, reverse: bool)
    requires Sorted(a, reverse) && Sorted(b, reverse)
    requires forall k :: Select(a, k) == Select(b, k)
    ensures a == b
    decreases |a|
  {
    SameSelectsSameEmptiness(a, b);
    if 0 < |a| {
      SortedSameHead(a, b, reverse);
      SameSelectsTails(a, b);
      SortedUnique(a[1..], b[1..], reverse);
      assert a == [a[0]] + a[1..];
      assert b == [b[0]] + b[1..];
    }
  }

  /** The sort keeps every pair's key fitting its row. */
  lemma SortKeepsKeysFit(ks: seq<Keyed>, reverse: bool, column: string, numeric: bool)
    requires KeysFit(ks, column, numeric)
    ensures KeysFit(Sort(ks, reverse), column, numeric)
  {
    SortSpec(ks, reverse);
    forall i | 0 <= i < |Sort(ks, reverse)|
      ensures Sort(ks, reverse)[i].key == KeyOf(Sort(ks, reverse)[i].row, column, numeric)
    {
      assert Sort(ks, reverse)[i] in multiset(ks);
    }
  }

  // ---------------------------------------------------------------------------
  // sort_table
  // ---------------------------------------------------------------------------

  /** The table after a header click, and the command the header is rebound to. */
  datatype SortOutcome = SortOutcome(rows: seq<Row>, next: SortCommand)

  /** `sort_table`: reorder the rows by the command's key and direction, and rebind the header to the opposite direction. */
  function SortTable(rows: seq<Row>, cmd: SortCommand): SortOutcome {
    SortOutcome(Undecorate(Sort(Decorate(rows, cmd.column, cmd.numeric), cmd.reverse)),
                cmd.(reverse := !cmd.reverse))
  }

  /**
   The table after a click is the rows of the table, rearranged, in the
   command's order of their keys; rows of equal key keep their order.
   */
  lemma SortTableSpec(rows: seq<Row>, cmd: SortCommand)
    ensures var out := SortTable(rows, cmd).rows;
            && multiset(out) == multiset(rows)
            && (forall i, j :: 0 <= i < j < |out| ==>
                  Before(KeyOf(out[i], cmd.column, cmd.numeric), KeyOf(out[j], cmd.column, cmd.numeric), cmd.reverse))
            && Decorate(out, cmd.column, cmd.numeric) == Sort(Decorate(rows, cmd.column, cmd.numeric), cmd.reverse)
  {
    var ks := Decorate(rows, cmd.column, cmd.numeric);
    var sorted := Sort(ks, cmd.reverse);
    SortSpec(ks, cmd.reverse);
    SortKeepsKeysFit(ks, cmd.reverse, cmd.column, cmd.numeric);
    DecorateUndecorate(sorted, cmd.column, cmd.numeric);
    SortPermutesRows(ks, cmd.reverse);
    assert Undecorate(ks) == rows;
  }

  lemma UndecorateConcat(a: seq<Keyed>, b: seq<Keyed>)
    ensures Undecorate(a + b) == Undecorate(a) + Undecorate(b)
  {
  }

  /** Insertion adds exactly the inserted pair's row to the rows. */
  lemma UndecorateInsert(ks: seq<Keyed>, x: Keyed, reverse: bool)
    ensures multiset(Undecorate(Insert(ks, x, reverse))) == multiset(Undecorate(ks)) + multiset{x.row}
  {
    var p := InsertPos(ks, x, reverse);
    var front, back := ks[..p], ks[p..];
    UndecorateConcat(front + [x], back);
    UndecorateConcat(front, [x]);
    assert ks == front + back;
    UndecorateConcat(front, back);
  }

  /** The sort rearranges the rows it is given. */
  lemma {:induction false} SortPermutesRows(ks: seq<Keyed>, reverse: bool)
    ensures multiset(Undecorate(Sort(ks, reverse))) == multiset(Undecorate(ks))
    decreases |ks|
  {
    if |ks| > 0 {
      var init, last := ks[..|ks| - 1], ks[|ks| - 1];
      SortPermutesRows(init, reverse);
      UndecorateInsert(Sort(init, reverse), last, reverse);
      assert Undecorate(ks) == Undecorate(init) + [last.row];
    }
  }

  /**
   The rebound header sorts the same column in the opposite direction, so a
   second click reverses and a third restores the first click's direction.
   */
  lemma HeaderAlternates(rows: seq<Row>, cmd: SortCommand)
    ensures var second := SortTable(rows, cmd).next;
            && second.column == cmd.column && second.numeric == cmd.numeric
            && second.reverse == !cmd.reverse
            && SortTable(rows, second).next == cmd
  {
  }

  /**
   The order a column sort leaves does not depend on how the table was
   ordered before: after a click on a column, clicking the same column again
   in either direction gives what that click alone would have given.
   */
  lemma LastClickDecides(rows: seq<Row>, first: SortCommand, second: SortCommand)
    requires first.column == second.column && first.numeric == second.numeric
    ensures SortTable(SortTable(rows, first).rows, second).rows == SortTable(rows, second).rows
  {
    var c, n := first.column, first.numeric;
    var ks := Decorate(rows, c, n);
    var once := Sort(ks, first.reverse);
    SortSpec(ks, first.reverse);
    SortKeepsKeysFit(ks, first.reverse, c, n);
    DecorateUndecorate(once, c, n);
    SortSpec(once, second.reverse);
    SortSpec(ks, second.reverse);
    SortedUnique(Sort(once, second.reverse), Sort(ks, second.reverse), second.reverse);
  }

  /** Clicking a header three times leaves the table as the first click did. */
  lemma ThirdClickRestoresFirst(rows: seq<Row>, cmd: SortCommand)
    ensures var r1 := SortTable(rows, cmd);
            var r2 := SortTable(r1.rows, r1.next);
            SortTable(r2.rows, r2.next).rows == r1.rows
  {
    var r1 := SortTable(rows, cmd);
    LastClickDecides(r1.rows, r1.next, cmd);
    LastClickDecides(rows, cmd, cmd);
  }
}

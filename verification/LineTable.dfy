// The finished line table of a unit: sorted rows and a sentinel, searched with line_search.
module LineTable {
  import opened Words
  import opened Readers
  import opened DwarfBuf
  import opened LineMachine
  import opened LineReader
  import opened BinarySearch

  // ---------------------------------------------------------------------------
  // qsort with line_compare
  // ---------------------------------------------------------------------------

  /** line_compare orders by pc and, at the same pc, by position in the vector. */
  predicate Before(rows: seq<Row>, i: nat, j: nat)
    requires i < |rows| && j < |rows|
  {
    rows[i].pc < rows[j].pc || (rows[i].pc == rows[j].pc && i < j)
  }

  /** order lists every row once, in the order line_compare asks for. */
  ghost predicate StableOrder(rows: seq<Row>, order: seq<nat>) {
    && |order| == |rows|
    && (forall k :: 0 <= k < |order| ==> order[k] < |rows|)
    && (forall i :: 0 <= i < |rows| ==> i in order)
    && (forall k, l :: 0 <= k < l < |order| ==> Before(rows, order[k], order[l]))
  }

  /** Position of the last row that stays in front of row i. */
  function InsertAt(rows: seq<Row>, order: seq<nat>, i: nat, k: nat): (p: nat)
    requires i < |rows| && k <= |order| && forall l :: 0 <= l < |order| ==> order[l] < |rows|
    ensures p <= k
    ensures p > 0 ==> Before(rows, order[p - 1], i)
    ensures forall l :: p <= l < k ==> !Before(rows, order[l], i)
  {
    if k == 0 || Before(rows, order[k - 1], i) then k else InsertAt(rows, order, i, k - 1)
  }

  /** One such order, for the first n rows. */
  function SortOrder(rows: seq<Row>, n: nat): (order: seq<nat>)
    requires n <= |rows|
    ensures |order| == n && forall k :: 0 <= k < n ==> order[k] < n
  {
    if n == 0 then []
    else
      var o := SortOrder(rows, n - 1);
      var p := InsertAt(rows, o, n - 1, n - 1);
      o[..p] + [n - 1] + o[p..]
  }

  lemma PositionOf(order: seq<nat>, x: nat) returns (k: nat)
    requires x in order
    ensures k < |order| && order[k] == x
  {
    k :| k < |order| && order[k] == x;
  }

  lemma {:induction false} SortOrderComplete(rows: seq<Row>, n: nat)
    requires n <= |rows|
    ensures forall i :: 0 <= i < n ==> i in SortOrder(rows, n)
  {
    hide InsertAt, Before;
    if n > 0 {
      SortOrderComplete(rows, n - 1);
      var o, order := SortOrder(rows, n - 1), SortOrder(rows, n);
      var p := InsertAt(rows, o, n - 1, n - 1);
      assert order == o[..p] + [n - 1] + o[p..] && o == o[..p] + o[p..];
      forall i | 0 <= i < n
        ensures i in order
      {
        if i < n - 1 {
          assert i in o[..p] + o[p..];
        }
      }
    }
  }

  ghost predicate Ordered(rows: seq<Row>, order: seq<nat>)
    requires forall k :: 0 <= k < |order| ==> order[k] < |rows|
  {
    forall k, l :: 0 <= k < l < |order| ==> Before(rows, order[k], order[l])
  }

  lemma InsertPlace(rows: seq<Row>, o: seq<nat>, n: nat)
    requires n < |rows| && |o| == n && forall k :: 0 <= k < n ==> o[k] < n
    requires Ordered(rows, o)
    ensures var p := InsertAt(rows, o, n, n);
      && (forall k :: 0 <= k < p ==> Before(rows, o[k], n))
      && forall k :: p <= k < n ==> Before(rows, n, o[k])
  {
    var p := InsertAt(rows, o, n, n);
    forall k | 0 <= k < p
      ensures Before(rows, o[k], n)
    {
      assert k == p - 1 || Before(rows, o[k], o[p - 1]);
    }
    forall k | p <= k < n
      ensures Before(rows, n, o[k])
    {
      assert !Before(rows, o[k], n);
    }
  }

  lemma InsertKeepsOrdered(rows: seq<Row>, o: seq<nat>, n: nat)
    requires n < |rows| && |o| == n && forall k :: 0 <= k < n ==> o[k] < n
    requires Ordered(rows, o)
    ensures var p := InsertAt(rows, o, n, n); Ordered(rows, o[..p] + [n] + o[p..])
  {
    hide InsertAt, Before;
    InsertPlace(rows, o, n);
    var p := InsertAt(rows, o, n, n);
    var q := o[..p] + [n] + o[p..];
    assert forall k :: 0 <= k < |q| ==> q[k] == if k < p then o[k] else if k == p then n else o[k - 1];
  }

  lemma {:induction false} SortOrderOrdered(rows: seq<Row>, n: nat)
    requires n <= |rows|
    ensures Ordered(rows, SortOrder(rows, n))
  {
    if n > 0 {
      SortOrderOrdered(rows, n - 1);
      InsertKeepsOrdered(rows, SortOrder(rows, n - 1), n - 1);
    }
  }

  lemma SortOrderIsStable(rows: seq<Row>)
    ensures StableOrder(rows, SortOrder(rows, |rows|))
  {
    SortOrderComplete(rows, |rows|);
    SortOrderOrdered(rows, |rows|);
  }

  // ---------------------------------------------------------------------------
  // The table and its search
  // ---------------------------------------------------------------------------

  const MAX_PC: word := U64 - 1
  const SENTINEL: Row := Row(MAX_PC, NoName, 0)

  /** The array after qsort: the rows in order, then the extra entry. */
  function Table(rows: seq<Row>, order: seq<nat>): (lines: seq<Row>)
    requires forall k :: 0 <= k < |order| ==> order[k] < |rows|
    ensures |lines| == |order| + 1
  {
    seq(|order|, k requires 0 <= k < |order| => rows[order[k]]) + [SENTINEL]
  }

  /** line_search on entry k, which also looks at entry k + 1. */
  function LineSign(lines: seq<Row>, pc: word, k: nat): int
    requires k + 1 < |lines|
  {
    if pc < lines[k].pc then -1 else if pc >= lines[k + 1].pc then 1 else 0
  }

  function LineSigns(lines: seq<Row>, pc: word): (signs: seq<int>)
    requires |lines| > 0
    ensures |signs| == |lines| - 1
    ensures forall k :: 0 <= k < |signs| ==> signs[k] == LineSign(lines, pc, k)
  {
    seq(|lines| - 1, k requires 0 <= k < |lines| - 1 => LineSign(lines, pc, k))
  }

  /** A linear scan of the first n rows as the program emitted them: the highest pc, the last such row. */
  function Scan(rows: seq<Row>, n: nat, pc: word): (r: Option<nat>)
    requires n <= |rows|
    ensures r.Some? ==> r.value < n
  {
    if n == 0 then None
    else
      var best := Scan(rows, n - 1, pc);
      if rows[n - 1].pc <= pc && (best == None || rows[best.value].pc <= rows[n - 1].pc) then Some(n - 1) else best
  }

  lemma {:induction false} ScanFindsLast(rows: seq<Row>, n: nat, pc: word)
    requires n <= |rows|
    ensures match Scan(rows, n, pc)
      case None => forall i :: 0 <= i < n ==> rows[i].pc > pc
      case Some(b) => rows[b].pc <= pc && forall i :: 0 <= i < n && rows[i].pc <= pc && i != b ==> Before(rows, i, b)
  {
    if n > 0 {
      ScanFindsLast(rows, n - 1, pc);
    }
  }

  lemma TableSorted(rows: seq<Row>, order: seq<nat>)
    requires StableOrder(rows, order)
    ensures forall k, l :: 0 <= k < l < |Table(rows, order)| ==> Table(rows, order)[k].pc <= Table(rows, order)[l].pc
  {
    var lines := Table(rows, order);
    forall k, l | 0 <= k < l < |lines|
      ensures lines[k].pc <= lines[l].pc
    {
      if l < |order| {
        assert Before(rows, order[k], order[l]);
      }
    }
  }

  /** line_search meets the demand of bsearch, for every pc. */
  lemma LineSignsPartitioned(rows: seq<Row>, order: seq<nat>, pc: word)
    requires StableOrder(rows, order)
    ensures Partitioned(LineSigns(Table(rows, order), pc))
  {
    TableSorted(rows, order);
  }

  lemma MatchOfScan(rows: seq<Row>, order: seq<nat>, pc: word) returns (k: nat)
    requires StableOrder(rows, order) && pc < MAX_PC && Scan(rows, |rows|, pc).Some?
    ensures k < |order| && order[k] == Scan(rows, |rows|, pc).value && LineSigns(Table(rows, order), pc)[k] == 0
  {
    ScanFindsLast(rows, |rows|, pc);
    var b := Scan(rows, |rows|, pc).value;
    k := PositionOf(order, b);
    if k + 1 < |order| {
      assert Before(rows, order[k], order[k + 1]);
      assert order[k + 1] != b;
    }
  }

  lemma MatchUnique(rows: seq<Row>, order: seq<nat>, pc: word, k: nat, l: nat)
    requires StableOrder(rows, order) && k < |order| && l < |order|
    requires LineSign(Table(rows, order), pc, k) == 0 && LineSign(Table(rows, order), pc, l) == 0
    ensures k == l
  {
    TableSorted(rows, order);
  }

  /** Whatever match bsearch finds, it is the row a linear scan of the program's rows finds. */
  lemma LineLookup(rows: seq<Row>, order: seq<nat>, pc: word, r: Option<nat>)
    requires StableOrder(rows, order)
    requires SearchResult(LineSigns(Table(rows, order), pc), r)
    ensures pc == MAX_PC ==> r == None
    ensures pc < MAX_PC ==> match r
      case None => Scan(rows, |rows|, pc) == None
      case Some(k) => Scan(rows, |rows|, pc) == Some(order[k])
  {
    var lines := Table(rows, order);
    var signs := LineSigns(lines, pc);
    match r {
      case Some(k) =>
        assert signs[k] == LineSign(lines, pc, k) && lines[k + 1].pc <= MAX_PC;
        ScanFindsLast(rows, |rows|, pc);
        assert rows[order[k]].pc <= pc;
        var l := MatchOfScan(rows, order, pc);
        MatchUnique(rows, order, pc, k, l);
      case None =>
        if pc < MAX_PC && Scan(rows, |rows|, pc).Some? {
          var l := MatchOfScan(rows, order, pc);
        }
    }
  }

  /** The pcs that have an entry: from the first entry up to, but excluding, the highest address. */
  lemma LineLookupDomain(rows: seq<Row>, order: seq<nat>, pc: word, r: Option<nat>)
    requires StableOrder(rows, order) && rows != []
    requires SearchResult(LineSigns(Table(rows, order), pc), r)
    ensures r.Some? <==> Table(rows, order)[0].pc <= pc < MAX_PC
  {
    LineLookup(rows, order, pc, r);
    ScanFindsLast(rows, |rows|, pc);
    TableSorted(rows, order);
    var lines := Table(rows, order);
    assert lines[0] == rows[order[0]];
    if pc < MAX_PC && r == None {
      assert rows[order[0]].pc > pc;
    }
    if r.Some? {
      assert lines[r.value].pc <= pc by {
        assert LineSigns(lines, pc)[r.value] == LineSign(lines, pc, r.value);
      }
      if r.value > 0 {
        assert lines[0].pc <= lines[r.value].pc;
      }
    }
  }

  // ---------------------------------------------------------------------------
  // Rows at the same pc
  // ---------------------------------------------------------------------------

  /**
   * line_compare breaks ties by the addresses the entries have while qsort moves them, so that only the
   * order by pc is certain.
   */
  ghost predicate PcOrder(rows: seq<Row>, order: seq<nat>) {
    && (forall k :: 0 <= k < |order| ==> order[k] < |rows|)
    && (forall i :: 0 <= i < |rows| ==> i in order)
    && (forall k, l :: 0 <= k < l < |order| ==> rows[order[k]].pc <= rows[order[l]].pc)
  }

  /** The last entry at or below pc. */
  lemma {:induction false} LastAtOrBelow(rows: seq<Row>, order: seq<nat>, pc: word, k: nat) returns (m: nat)
    requires PcOrder(rows, order) && k < |order| && rows[order[k]].pc <= pc < MAX_PC
    ensures m < |order| && LineSign(Table(rows, order), pc, m) == 0
    decreases |order| - k
  {
    if k + 1 < |order| && rows[order[k + 1]].pc <= pc {
      m := LastAtOrBelow(rows, order, pc, k + 1);
    } else {
      m := k;
    }
  }

  lemma PcOrderPartitioned(rows: seq<Row>, order: seq<nat>, pc: word)
    requires PcOrder(rows, order)
    ensures Partitioned(LineSigns(Table(rows, order), pc))
  {
    var lines := Table(rows, order);
    assert forall k, l :: 0 <= k < l < |lines| ==> lines[k].pc <= lines[l].pc;
  }

  lemma MatchIsLast(rows: seq<Row>, order: seq<nat>, pc: word, k: nat, l: nat)
    requires PcOrder(rows, order) && k < |order| && l < |order|
    requires LineSign(Table(rows, order), pc, k) == 0 && rows[order[l]].pc <= pc
    ensures rows[order[k]].pc <= pc < MAX_PC && rows[order[l]].pc <= rows[order[k]].pc
  {
    var lines := Table(rows, order);
    assert lines[l] == rows[order[l]] && lines[k] == rows[order[k]];
    assert forall m :: 0 <= m < |order| ==> lines[m] == rows[order[m]];
    assert lines[k + 1].pc <= MAX_PC;
  }

  /** However ties are broken, the search finds a row with the highest pc at or below the query, if there is one. */
  lemma LineLookupAnyTies(rows: seq<Row>, order: seq<nat>, pc: word, r: Option<nat>)
    requires PcOrder(rows, order) && Searched(LineSigns(Table(rows, order), pc), 0, |order|, r)
    ensures match r
      case None => pc == MAX_PC || forall i :: 0 <= i < |rows| ==> rows[i].pc > pc
      case Some(k) =>
        && rows[order[k]].pc <= pc < MAX_PC
        && forall i :: 0 <= i < |rows| && rows[i].pc <= pc ==> rows[i].pc <= rows[order[k]].pc
  {
    var lines := Table(rows, order);
    PcOrderPartitioned(rows, order, pc);
    SearchedFinds(LineSigns(lines, pc), 0, |order|, r);
    forall i: nat | i < |rows| && rows[i].pc <= pc < MAX_PC
      ensures r.Some? && rows[i].pc <= rows[order[r.value]].pc
    {
      var l := PositionOf(order, i);
      var m := LastAtOrBelow(rows, order, pc, l);
      assert LineSigns(lines, pc)[m] == 0;
      MatchIsLast(rows, order, pc, r.value, l);
    }
  }

  // ---------------------------------------------------------------------------
  // read_line_info after the header
  // ---------------------------------------------------------------------------

  /** u->lines: NULL means never read, and -1 that reading failed. */
  datatype Lines = NotRead | Failed | Ready(lines: seq<Row>)

  /** The table a program leaves: none after an error, an underflow or an empty program. */
  function TableOf(o: Outcome): Lines
    requires !o.Crashed?
  {
    if o.Finished? && !o.underflow && o.regs.rows != [] then
      Ready(Table(o.regs.rows, SortOrder(o.regs.rows, |o.regs.rows|)))
    else Failed
  }

  method ReadLineInfo(e: Env, buf: Buf) returns (trap: bool, lines: Lines)
    requires e.Valid() && buf.Valid() && buf.bigEndian == e.bigEndian && !buf.reported_underflow
    modifies buf
    ensures var o := Run(e, old(buf.Rest()), Initial(e, []), false);
      trap == o.Crashed? && (!trap ==> lines == TableOf(o))
  {
    hide Run;
    var vec := new LineVector();
    var status := ReadLineProgram(e, buf, vec);
    if status == Trap {
      return true, NotRead;
    }
    if status == Failure || buf.reported_underflow || |vec.lines| == 0 {
      return false, Failed;
    }
    return false, Ready(Table(vec.lines, SortOrder(vec.lines, |vec.lines|)));
  }

  method LookupLine(lines: seq<Row>, pc: word, ghost rows: seq<Row>, ghost order: seq<nat>) returns (r: Option<nat>)
    requires StableOrder(rows, order) && lines == Table(rows, order)
    ensures SearchResult(LineSigns(lines, pc), r)
    ensures r.Some? <==> pc < MAX_PC && Scan(rows, |rows|, pc).Some?
    ensures r.Some? ==> lines[r.value] == rows[Scan(rows, |rows|, pc).value]
  {
    LineSignsPartitioned(rows, order, pc);
    r := BSearch(|lines| - 1, (k: nat) requires k + 1 < |lines| => LineSign(lines, pc, k), LineSigns(lines, pc));
    LineLookup(rows, order, pc, r);
  }
}

/** Parse tables, one part indexed by symbol and one compressed into groups, and the iterator over the
    symbols that are valid in a state (language.h). */
module ParseTables {
  const UINT16_MAX := 0xFFFF

  /** States below largeStateCount have a row with a value for every symbol in parseTable.  For the others,
      smallParseTable holds at a mapped index the number of groups and then, for each group, a value, the
      number of symbols that have it, and these symbols. */
  datatype ParseTable = ParseTable(
    largeStateCount: nat,
    symbolCount: nat,
    parseTable: seq<nat>,
    smallParseTableMap: seq<nat>,
    smallParseTable: seq<nat>)
  {
    predicate IsSmall(state: nat) {
      state >= largeStateCount
    }

    /** The state's data lies inside the tables. */
    predicate HasState(state: nat) {
      && symbolCount <= UINT16_MAX
      && if IsSmall(state) then
           && state - largeStateCount < |smallParseTableMap|
           && var index := smallParseTableMap[state - largeStateCount];
           index < |smallParseTable| && HasGroups(smallParseTable, index + 1, smallParseTable[index])
         else state * symbolCount + symbolCount <= |parseTable|
    }

    /** The iterator relies on groups that are not empty. */
    predicate HasFullGroups(state: nat)
      requires HasState(state)
    {
      IsSmall(state) ==>
        var index := smallParseTableMap[state - largeStateCount];
        NoneEmpty(smallParseTable, index + 1, smallParseTable[index])
    }

    /** What the iterator visits: the symbols listed in the groups of a small state, the symbols with a value other
        than zero in the row of a large one. */
    function Lookaheads(state: nat): seq<Entry>
      requires HasState(state)
    {
      if IsSmall(state) then
        var index := smallParseTableMap[state - largeStateCount];
        Listed(smallParseTable, index + 1, smallParseTable[index])
      else NonZero(parseTable, state * symbolCount, symbolCount)
    }

    /** What a lookup has to give. */
    function ValueOf(state: nat, symbol: nat): nat
      requires HasState(state) && (IsSmall(state) || symbol < symbolCount)
    {
      if IsSmall(state) then FirstValue(Lookaheads(state), symbol)
      else RowsApart(state, symbol); parseTable[state * symbolCount + symbol]
    }

    lemma RowsApart(state: nat, symbol: nat)
      requires HasState(state) && !IsSmall(state) && symbol < symbolCount
      ensures 0 <= state * symbolCount + symbol < |parseTable|
    {
    }
  }

  datatype Entry = Entry(symbol: nat, value: nat)

  /** Where the group at pos ends. */
  function GroupEnd(data: seq<nat>, pos: nat): nat
    requires pos + 2 <= |data|
  {
    pos + 2 + data[pos + 1]
  }

  predicate HasGroups(data: seq<nat>, pos: nat, groups: nat)
    decreases groups
  {
    groups > 0 ==>
      && pos + 2 <= |data| && GroupEnd(data, pos) <= |data|
      && HasGroups(data, GroupEnd(data, pos), groups - 1)
  }

  predicate NoneEmpty(data: seq<nat>, pos: nat, groups: nat)
    requires HasGroups(data, pos, groups)
    decreases groups
  {
    groups > 0 ==> data[pos + 1] > 0 && NoneEmpty(data, GroupEnd(data, pos), groups - 1)
  }

  function WithValue(symbols: seq<nat>, value: nat): (es: seq<Entry>)
    ensures |es| == |symbols| && forall i | 0 <= i < |symbols| :: es[i] == Entry(symbols[i], value)
  {
    seq(|symbols|, i requires 0 <= i < |symbols| => Entry(symbols[i], value))
  }

  /** The symbols of the groups with their values. */
  function Listed(data: seq<nat>, pos: nat, groups: nat): seq<Entry>
    requires HasGroups(data, pos, groups)
    decreases groups
  {
    if groups == 0 then []
    else
      WithValue(data[pos + 2..GroupEnd(data, pos)], data[pos]) + Listed(data, GroupEnd(data, pos), groups - 1)
  }

  /** The symbols below n that do not have value zero in the row at pos. */
  function NonZero(data: seq<nat>, pos: nat, n: nat): seq<Entry>
    requires pos + n <= |data|
  {
    if n == 0 then []
    else NonZero(data, pos, n - 1) + (if data[pos + n - 1] != 0 then [Entry(n - 1, data[pos + n - 1])] else [])
  }

  predicate SymbolsDiffer(es: seq<Entry>) {
    forall i, j | 0 <= i < j < |es| :: es[i].symbol != es[j].symbol
  }

  function FirstValue(es: seq<Entry>, symbol: nat): nat {
    if es == [] then 0 else if es[0].symbol == symbol then es[0].value else FirstValue(es[1..], symbol)
  }

  lemma {:induction false} FirstValueConcat(a: seq<Entry>, b: seq<Entry>, symbol: nat)
    ensures FirstValue(a + b, symbol)
            == if exists i | 0 <= i < |a| :: a[i].symbol == symbol then FirstValue(a, symbol) else FirstValue(b, symbol)
  {
    if a == [] {
      assert a + b == b;
    } else {
      assert (a + b)[1..] == a[1..] + b;
      FirstValueConcat(a[1..], b, symbol);
      if exists i | 0 <= i < |a| :: a[i].symbol == symbol {
        var i :| 0 <= i < |a| && a[i].symbol == symbol;
        assert i > 0 ==> a[1..][i - 1].symbol == symbol;
      }
      if a[0].symbol != symbol {
        assert forall i | 0 <= i < |a[1..]| :: a[1..][i] == a[i + 1];
      }
    }
  }

  /** Looks a symbol up by walking through the groups. */
  method Lookup(table: ParseTable, state: nat, symbol: nat) returns (value: nat)
    requires table.HasState(state) && (table.IsSmall(state) || symbol < table.symbolCount)
    ensures value == table.ValueOf(state, symbol)
  {
    if state >= table.largeStateCount {
      var index := table.smallParseTableMap[state - table.largeStateCount];
      value := LookupSmall(table.smallParseTable, index, symbol);
    } else {
      table.RowsApart(state, symbol);
      value := table.parseTable[state * table.symbolCount + symbol];
    }
  }

  method LookupSmall(table: seq<nat>, index: nat, symbol: nat) returns (value: nat)
    requires index < |table| && HasGroups(table, index + 1, table[index])
    ensures value == FirstValue(Listed(table, index + 1, table[index]), symbol)
  {
    var data := index;
    var groupCount := table[data];
    data := data + 1;
    ghost var goal := FirstValue(Listed(table, data, groupCount), symbol);
    for i := 0 to groupCount
      invariant HasGroups(table, data, groupCount - i)
      invariant goal == FirstValue(Listed(table, data, groupCount - i), symbol)
    {
      ghost var pos := data;
      var sectionValue := table[data];
      var symbolCount := table[data + 1];
      data := data + 2;
      ghost var start := data;
      for j := 0 to symbolCount
        invariant data == start + j && forall d | start <= d < data :: table[d] != symbol
      {
        if table[data] == symbol {
          InGroup(table, pos, groupCount - i, groupCount - i - 1, symbol, data);
          return sectionValue;
        }
        data := data + 1;
      }
      NotInGroup(table, pos, groupCount - i, groupCount - i - 1, symbol);
    }
    return 0;
  }

  lemma InGroup(data: seq<nat>, pos: nat, groups: nat, rest: nat, symbol: nat, d: nat)
    requires groups == rest + 1 && HasGroups(data, pos, groups) && pos + 2 <= d < GroupEnd(data, pos)
    requires data[d] == symbol && forall k | pos + 2 <= k < d :: data[k] != symbol
    ensures FirstValue(Listed(data, pos, groups), symbol) == data[pos]
  {
    var (group, i) := (WithValue(data[pos + 2..GroupEnd(data, pos)], data[pos]), d - (pos + 2));
    FirstValueConcat(group, Listed(data, GroupEnd(data, pos), rest), symbol);
    assert group[i].symbol == symbol;
    FirstValueAt(group, i, symbol);
  }

  lemma NotInGroup(data: seq<nat>, pos: nat, groups: nat, rest: nat, symbol: nat)
    requires groups == rest + 1 && HasGroups(data, pos, groups)
    requires forall k | pos + 2 <= k < GroupEnd(data, pos) :: data[k] != symbol
    ensures FirstValue(Listed(data, pos, groups), symbol)
            == FirstValue(Listed(data, GroupEnd(data, pos), rest), symbol)
  {
    var group := WithValue(data[pos + 2..GroupEnd(data, pos)], data[pos]);
    FirstValueConcat(group, Listed(data, GroupEnd(data, pos), rest), symbol);
  }

  lemma {:induction false} FirstValueAt(es: seq<Entry>, j: nat, symbol: nat)
    requires j < |es| && es[j].symbol == symbol && forall k | 0 <= k < j :: es[k].symbol != symbol
    ensures FirstValue(es, symbol) == es[j].value
  {
    if j == 0 {
    } else {
      FirstValueAt(es[1..], j - 1, symbol);
    }
  }

  // ----- The iterator -----

  /** What is left after the symbol at d in a group that ends at the given place. */
  function Remaining(data: seq<nat>, d: nat, end: nat, value: nat, groups: nat): seq<Entry>
    requires d < end <= |data| && HasGroups(data, end, groups)
  {
    WithValue(data[d + 1..end], value) + Listed(data, end, groups)
  }

  lemma NextInGroup(data: seq<nat>, d: nat, next: nat, end: nat, value: nat, groups: nat)
    requires next == d + 1 && next < end <= |data| && HasGroups(data, end, groups)
    ensures Remaining(data, d, end, value, groups)
            == [Entry(data[next], value)] + Remaining(data, next, end, value, groups)
  {
    assert WithValue(data[next..end], value) == [Entry(data[next], value)] + WithValue(data[next + 1..end], value);
  }

  lemma NextGroup(data: seq<nat>, d: nat, pos: nat, value: nat, groups: nat, rest: nat)
    requires pos == d + 1 && groups == rest + 1 && pos <= |data|
    requires HasGroups(data, pos, groups) && NoneEmpty(data, pos, groups)
    ensures Remaining(data, d, pos, value, groups)
            == [Entry(data[pos + 2], data[pos])] + Remaining(data, pos + 2, GroupEnd(data, pos), data[pos], rest)
  {
    var end := GroupEnd(data, pos);
    assert WithValue(data[d + 1..pos], value) == [];
    assert WithValue(data[pos + 2..end], data[pos])
           == [Entry(data[pos + 2], data[pos])] + WithValue(data[pos + 3..end], data[pos]);
  }

  lemma Shifted(before: seq<Entry>, e: Entry, after: seq<Entry>)
    ensures before + ([e] + after) == before + [e] + after
  {
  }

  class LookaheadIterator {
    const table: ParseTable
    var data: int
    var groupEnd: int
    var groupCount: nat
    var isSmallState: bool
    var symbol: nat
    var tableValue: nat
    ghost const state: nat
    /** What has been visited. */
    ghost var visited: seq<Entry>

    ghost predicate Valid()
      reads this
    {
      && table.HasState(state) && table.HasFullGroups(state)
      && isSmallState == table.IsSmall(state)
      && if isSmallState then Leaves(visited) else HasCome((symbol + 1) % (UINT16_MAX + 1), visited)
    }

    /** The symbols below k of a large state's row have been looked at. */
    ghost predicate HasCome(k: nat, es: seq<Entry>)
      requires table.HasState(state) && !table.IsSmall(state)
      reads `data
    {
      && k <= table.symbolCount && data + 1 == state * table.symbolCount + k
      && es == NonZero(table.parseTable, state * table.symbolCount, k)
    }

    constructor (table: ParseTable, state: nat)
      requires table.HasState(state)
      ensures visited == [] && this.table == table && this.state == state && isSmallState == table.IsSmall(state)
      ensures table.HasFullGroups(state) ==> Valid()
      ensures isSmallState ==>
                && groupEnd == table.smallParseTableMap[state - table.largeStateCount] + 1 == data + 1
                && groupCount == table.smallParseTable[groupEnd - 1]
    {
      this.table, this.state := table, state;
      isSmallState := state >= table.largeStateCount;
      symbol, tableValue, visited := UINT16_MAX, 0, [];
      if state >= table.largeStateCount {
        var index := table.smallParseTableMap[state - table.largeStateCount];
        data, groupEnd, groupCount := index, index + 1, table.smallParseTable[index];
      } else {
        data, groupEnd, groupCount := state * table.symbolCount - 1, 0, 0;
      }
    }

    /** The cells that the next step reads are there. */
    predicate CanStep()
      reads `data, `groupEnd, `groupCount
    {
      && -1 <= data && 0 <= groupEnd
      && if data + 1 != groupEnd then data + 1 < |table.smallParseTable|
         else groupCount > 0 ==> groupEnd + 2 < |table.smallParseTable|
    }

    /** The next step begins the group at pos. */
    predicate BeginsGroup(pos: nat)
      reads `data, `groupEnd, `groupCount
    {
      data + 1 == groupEnd == pos && groupCount > 0
    }

    /** Goes on to the next symbol; when there is none left, all have been visited. */
    method Next() returns (found: bool)
      requires Valid() || (isSmallState && CanStep())
      modifies this
      ensures old(Valid()) && found ==> Valid() && visited == old(visited) + [Entry(symbol, tableValue)]
      ensures old(Valid()) && !found ==> visited == old(visited) == table.Lookaheads(state)
      ensures isSmallState == old(isSmallState)
      ensures forall pos: nat :: isSmallState && old(BeginsGroup(pos)) ==>
                && pos + 2 < |table.smallParseTable|
                && found && tableValue == table.smallParseTable[pos] && symbol == table.smallParseTable[pos + 2]
    {
      if isSmallState {
        found := NextSmall();
      } else {
        found := NextLarge();
      }
    }

    /** What the fields of an iterator over groups have to say about the symbols still to come. */
    ghost predicate Leaves(visited: seq<Entry>)
      requires table.HasState(state)
      reads `data, `groupEnd, `groupCount, `tableValue
    {
      && 0 <= data < groupEnd <= |table.smallParseTable|
      && HasGroups(table.smallParseTable, groupEnd, groupCount)
      && NoneEmpty(table.smallParseTable, groupEnd, groupCount)
      && table.Lookaheads(state)
         == visited + Remaining(table.smallParseTable, data, groupEnd, tableValue, groupCount)
    }

    lemma ValidCanStep()
      requires Valid() && isSmallState
      ensures CanStep()
    {
    }

    method NextSmall() returns (found: bool)
      requires isSmallState && (Valid() || CanStep())
      modifies this
      ensures isSmallState
      ensures old(Valid()) && found ==> Valid() && visited == old(visited) + [Entry(symbol, tableValue)]
      ensures old(Valid()) && !found ==> visited == old(visited) == table.Lookaheads(state)
      ensures forall pos: nat :: old(BeginsGroup(pos)) ==>
                && pos + 2 < |table.smallParseTable|
                && found && tableValue == table.smallParseTable[pos] && symbol == table.smallParseTable[pos + 2]
    {
      if Valid() {
        ValidCanStep();
      }
      if data + 1 == groupEnd && groupCount == 0 {
        data := data + 1;
        return false;
      }
      if data + 1 == groupEnd {
        StartGroup();
      } else {
        Continue();
      }
      visited := visited + [Entry(symbol, tableValue)];
      return true;
    }

    method Continue()
      requires CanStep() && data + 1 != groupEnd
      modifies `data, `symbol
      ensures table.HasState(state) && old(Leaves(visited)) ==> Leaves(visited + [Entry(symbol, tableValue)])
    {
      ghost var before := data;
      data := data + 1;
      symbol := table.smallParseTable[data];
      if table.HasState(state) && old(Leaves(visited)) {
        NextInGroup(table.smallParseTable, before, data, groupEnd, tableValue, groupCount);
        Shifted(visited, Entry(symbol, tableValue),
                Remaining(table.smallParseTable, data, groupEnd, tableValue, groupCount));
      }
    }

    method StartGroup()
      requires CanStep() && data + 1 == groupEnd && groupCount > 0
      modifies `data, `groupEnd, `groupCount, `symbol, `tableValue
      ensures tableValue == table.smallParseTable[old(groupEnd)]
      ensures symbol == table.smallParseTable[old(groupEnd) + 2]
      ensures table.HasState(state) && old(Leaves(visited)) ==> Leaves(visited + [Entry(symbol, tableValue)])
    {
      if table.HasState(state) && Leaves(visited) {
        GroupStarts();
      }
      var d := data + 1;
      var value := table.smallParseTable[d];
      d := d + 1;
      var symbolCount := table.smallParseTable[d];
      d := d + 1;
      data, groupEnd, groupCount := d, d + symbolCount, groupCount - 1;
      symbol, tableValue := table.smallParseTable[d], value;
    }

    /** What is left once the next group has been started. */
    lemma GroupStarts()
      requires table.HasState(state) && Leaves(visited) && data + 1 == groupEnd && groupCount > 0
      ensures var (t, end, rest) := (table.smallParseTable, GroupEnd(table.smallParseTable, groupEnd), groupCount - 1);
              && groupEnd + 2 < end <= |t| && HasGroups(t, end, rest) && NoneEmpty(t, end, rest)
              && table.Lookaheads(state)
                 == visited + [Entry(t[groupEnd + 2], t[groupEnd])] + Remaining(t, groupEnd + 2, end, t[groupEnd], rest)
    {
      var (t, end, rest) := (table.smallParseTable, GroupEnd(table.smallParseTable, groupEnd), groupCount - 1);
      NextGroup(t, data, groupEnd, tableValue, groupCount, rest);
      Shifted(visited, Entry(t[groupEnd + 2], t[groupEnd]), Remaining(t, groupEnd + 2, end, t[groupEnd], rest));
    }

    method NextLarge() returns (found: bool)
      requires Valid() && !isSmallState
      modifies this
      ensures !isSmallState
      ensures found ==> Valid() && visited == old(visited) + [Entry(symbol, tableValue)]
      ensures !found ==> visited == old(visited) == table.Lookaheads(state)
    {
      while true
        invariant Valid() && visited == old(visited) && !isSmallState
        decreases table.symbolCount - (symbol + 1) % (UINT16_MAX + 1)
      {
        symbol := (symbol + 1) % (UINT16_MAX + 1);
        if symbol >= table.symbolCount {
          data := data + 1;
          return false;
        }
        ReadValue(symbol, symbol + 1);
        if tableValue != 0 {
          visited := visited + [Entry(symbol, tableValue)];
          return true;
        }
      }
    }

    /** Reads the value of the next symbol in a row. */
    method ReadValue(k: nat, ghost next: nat)
      requires table.HasState(state) && !table.IsSmall(state) && HasCome(k, visited)
      requires k < table.symbolCount && next == k + 1
      modifies `data, `tableValue
      ensures HasCome(next, visited + if tableValue != 0 then [Entry(k, tableValue)] else [])
    {
      data := data + 1;
      table.RowsApart(state, k);
      tableValue := table.parseTable[data];
    }
  }

  /** Runs an iterator to its end. */
  method CollectLookaheads(table: ParseTable, state: nat) returns (es: seq<Entry>)
    requires table.HasState(state) && table.HasFullGroups(state)
    ensures es == table.Lookaheads(state)
  {
    es := [];
    var lookaheads := new LookaheadIterator(table, state);
    var found := true;
    while found
      invariant found ==> lookaheads.Valid()
      invariant lookaheads.visited == es && lookaheads.table == table && lookaheads.state == state
      invariant |es| <= |table.Lookaheads(state)|
      invariant !found ==> es == table.Lookaheads(state)
      decreases |table.Lookaheads(state)| - |es|, found
    {
      found := lookaheads.Next();
      if found {
        VisitedWithin(lookaheads);
        es := es + [Entry(lookaheads.symbol, lookaheads.tableValue)];
      }
    }
  }

  lemma VisitedWithin(lookaheads: LookaheadIterator)
    requires lookaheads.Valid()
    ensures |lookaheads.visited| <= |lookaheads.table.Lookaheads(lookaheads.state)|
  {
    var (t, state) := (lookaheads.table, lookaheads.state);
    if !lookaheads.isSmallState {
      NonZeroGrows(t.parseTable, state * t.symbolCount, (lookaheads.symbol + 1) % (UINT16_MAX + 1), t.symbolCount);
    }
  }

  lemma {:induction false} NonZeroGrows(data: seq<nat>, pos: nat, k: nat, n: nat)
    requires k <= n && pos + n <= |data|
    ensures |NonZero(data, pos, k)| <= |NonZero(data, pos, n)|
  {
    if k >= n {
    } else {
      NonZeroGrows(data, pos, k, n - 1);
    }
  }

  // ----- The iterator agrees with the lookup -----

  lemma {:induction false} NonZeroDiffer(data: seq<nat>, pos: nat, n: nat)
    requires pos + n <= |data|
    ensures SymbolsDiffer(NonZero(data, pos, n))
    ensures forall i | 0 <= i < |NonZero(data, pos, n)| :: NonZero(data, pos, n)[i].symbol < n
  {
    if n == 0 {
    } else {
      NonZeroDiffer(data, pos, n - 1);
    }
  }

  lemma {:induction false} NonZeroHolds(data: seq<nat>, pos: nat, n: nat, e: Entry)
    requires pos + n <= |data|
    ensures e in NonZero(data, pos, n) <==> e.symbol < n && e.value == data[pos + e.symbol] != 0
  {
    if n == 0 {
    } else {
      NonZeroHolds(data, pos, n - 1, e);
    }
  }

  lemma {:induction false} FirstValueIn(es: seq<Entry>, e: Entry)
    requires SymbolsDiffer(es)
    ensures e in es ==> FirstValue(es, e.symbol) == e.value
    ensures FirstValue(es, e.symbol) == e.value != 0 ==> e in es
  {
    if es == [] {
    } else {
      assert forall i, j | 0 <= i < j < |es[1..]| :: es[1..][i] == es[i + 1] && es[1..][j] == es[j + 1];
      FirstValueIn(es[1..], e);
      if e in es && e != es[0] {
        var i :| 0 <= i < |es| && es[i] == e;
        assert es[1..][i - 1] == e;
      }
    }
  }

  /** The iterator visits the symbols that a lookup finds a value for, with this value, and none twice. */
  ghost predicate Agrees(table: ParseTable, state: nat)
    requires table.HasState(state)
  {
    && SymbolsDiffer(table.Lookaheads(state))
    && forall e: Entry | table.IsSmall(state) || e.symbol < table.symbolCount ::
         e in table.Lookaheads(state) <==> table.ValueOf(state, e.symbol) == e.value != 0
  }

  predicate NoneZero(es: seq<Entry>) {
    forall i | 0 <= i < |es| :: es[i].value != 0
  }

  lemma SmallStateAgrees(table: ParseTable, state: nat)
    requires table.HasState(state) && table.IsSmall(state)
    ensures Agrees(table, state) <==> NoneZero(table.Lookaheads(state)) && SymbolsDiffer(table.Lookaheads(state))
  {
    var es := table.Lookaheads(state);
    if NoneZero(es) && SymbolsDiffer(es) {
      forall e: Entry
        ensures e in es <==> FirstValue(es, e.symbol) == e.value != 0
      {
        FirstValueIn(es, e);
      }
    }
    if Agrees(table, state) {
      assert forall i | 0 <= i < |es| :: es[i] in es;
    }
  }

  lemma LargeStateAgrees(table: ParseTable, state: nat)
    requires table.HasState(state) && !table.IsSmall(state)
    ensures Agrees(table, state)
  {
    var (es, row) := (table.Lookaheads(state), state * table.symbolCount);
    NonZeroDiffer(table.parseTable, row, table.symbolCount);
    forall e: Entry | e.symbol < table.symbolCount
      ensures e in es <==> table.ValueOf(state, e.symbol) == e.value != 0
    {
      table.RowsApart(state, e.symbol);
      NonZeroHolds(table.parseTable, row, table.symbolCount, e);
    }
  }

  /** For a large state the iterator agrees with the lookup; for a small one exactly if the values of the groups are
      not zero and no symbol is listed twice. */
  lemma LookaheadsAgreeWithLookup(table: ParseTable, state: nat)
    requires table.HasState(state)
    ensures Agrees(table, state)
            <==> table.IsSmall(state) ==> NoneZero(table.Lookaheads(state)) && SymbolsDiffer(table.Lookaheads(state))
  {
    if table.IsSmall(state) {
      SmallStateAgrees(table, state);
    } else {
      LargeStateAgrees(table, state);
    }
  }

  const TABLE_WITH_EMPTY_GROUP := ParseTable(0, 10, [], [0], [2, 5, 0, 7, 1, 3])

  lemma OneSymbolListed(data: seq<nat>)
    requires data == [2, 5, 0, 7, 1, 3]
    ensures HasGroups(data, 1, 2) && Listed(data, 1, 2) == [Entry(3, 7)]
  {
    assert HasGroups(data, 6, 0) && Listed(data, 6, 0) == [];
    assert HasGroups(data, 3, 1) && Listed(data, 3, 1) == [Entry(3, 7)] by {
      assert WithValue(data[5..6], 7) == [Entry(3, 7)];
    }
    assert WithValue(data[3..3], 5) == [];
  }

  lemma ExampleTable()
    ensures var t := TABLE_WITH_EMPTY_GROUP; t.HasState(0) && t.IsSmall(0) && t.Lookaheads(0) == [Entry(3, 7)]
    ensures TABLE_WITH_EMPTY_GROUP.ValueOf(0, 7) == 0
  {
    OneSymbolListed(TABLE_WITH_EMPTY_GROUP.smallParseTable);
    assert FirstValue([Entry(3, 7)][1..], 7) == 0;
  }

  /** A small state with an empty group in front: the first symbol visited is one that no group lists. */
  method EmptyGroupExample() returns (symbol: nat, visited: nat, value: nat)
    ensures TABLE_WITH_EMPTY_GROUP.HasState(0) && TABLE_WITH_EMPTY_GROUP.Lookaheads(0) == [Entry(3, 7)]
    ensures symbol == 7 && visited == 5 && value == 0
  {
    var table := TABLE_WITH_EMPTY_GROUP;
    ExampleTable();
    symbol, visited := FirstVisited(table, 0);
    value := Lookup(table, 0, symbol);
  }

  /** The first step in a small state that has a group. */
  method FirstVisited(table: ParseTable, state: nat) returns (symbol: nat, value: nat)
    requires table.HasState(state) && table.IsSmall(state)
    requires var pos := table.smallParseTableMap[state - table.largeStateCount] + 1;
             table.smallParseTable[pos - 1] > 0 && pos + 2 < |table.smallParseTable|
    ensures var pos := table.smallParseTableMap[state - table.largeStateCount] + 1;
            symbol == table.smallParseTable[pos + 2] && value == table.smallParseTable[pos]
  {
    var lookaheads := new LookaheadIterator(table, state);
    assert lookaheads.BeginsGroup(table.smallParseTableMap[state - table.largeStateCount] + 1);
    var _ := lookaheads.Next();
    symbol, value := lookaheads.symbol, lookaheads.tableValue;
  }
}

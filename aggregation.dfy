/**
 The per-year summary behind each bubble of the map: the match table grouped by
 the year of each match (`d3.nest().key(...).rollup(aggregateYear)`), where the
 integer part of each group's aggregate is the total attendance and the teams that
 played, and the year filter with which `update(year)` picks one group.
 */
module Aggregation {

  /** One row of the match table, reduced to what the aggregation reads: the
      calendar year of the match date, its attendance and the two teams. */
  datatype Match = Match(year: int, attendance: nat, team1: string, team2: string)

  /** The integer part of the value `aggregateYear` returns for one year's matches. */
  datatype YearAggregate = YearAggregate(attendance: nat, teams: seq<string>)

  /** One entry of the grouped table: a year (the group key) and its aggregate. */
  datatype Entry = Entry(key: int, values: YearAggregate)

  predicate Distinct<T(==)>(s: seq<T>)
  {
    forall i, j :: 0 <= i < j < |s| ==> s[i] != s[j]
  }

  predicate KeysDistinct(nested: seq<Entry>)
  {
    forall i, j :: 0 <= i < j < |nested| ==> nested[i].key != nested[j].key
  }

  /** Team `t` is `team1` or `team2` of some match in `leaves`. */
  ghost predicate Plays(leaves: seq<Match>, t: string)
  {
    exists i :: 0 <= i < |leaves| && (leaves[i].team1 == t || leaves[i].team2 == t)
  }

  /** Some match in `data` was played in `year`. */
  ghost predicate HasYear(data: seq<Match>, year: int)
  {
    exists i :: 0 <= i < |data| && data[i].year == year
  }

  // ---------------------------------------------------------------------------
  // Total attendance (`d3.sum` over the attendance of the leaves)

  function TotalAttendance(leaves: seq<Match>): nat
  {
    if leaves == [] then 0 else leaves[0].attendance + TotalAttendance(leaves[1..])
  }

  lemma {:induction false} TotalAppend(a: seq<Match>, b: seq<Match>)
    ensures TotalAttendance(a + b) == TotalAttendance(a) + TotalAttendance(b)
  {
    if a != [] {
      assert (a + b)[1..] == a[1..] + b;
      TotalAppend(a[1..], b);
    } else {
      assert a + b == b;
    }
  }

  /** Taking one match out of the table lowers the total by exactly its attendance. */
  lemma TotalRemove(s: seq<Match>, i: nat)
    requires i < |s|
    ensures TotalAttendance(s) == s[i].attendance + TotalAttendance(s[..i] + s[i + 1..])
  {
    assert s == s[..i] + ([s[i]] + s[i + 1..]);
    TotalAppend(s[..i], [s[i]] + s[i + 1..]);
    assert ([s[i]] + s[i + 1..])[1..] == s[i + 1..];
    TotalAppend(s[..i], s[i + 1..]);
  }

  /** The total does not depend on the order of the matches. */
  lemma {:induction false} TotalPermutation(a: seq<Match>, b: seq<Match>)
    requires multiset(a) == multiset(b)
    ensures TotalAttendance(a) == TotalAttendance(b)
    decreases |a|
  {
    if a != [] {
      assert a[0] in multiset(b);
      var i :| 0 <= i < |b| && b[i] == a[0];
      TotalRemove(b, i);
      var rest := b[..i] + b[i + 1..];
      assert b == b[..i] + [b[i]] + b[i + 1..];
      assert multiset(rest) == multiset(b) - multiset{b[i]};
      assert a == [a[0]] + a[1..];
      assert multiset(a[1..]) == multiset(a) - multiset{a[0]};
      TotalPermutation(a[1..], rest);
    }
  }

  /** No single match attends more than the whole year. */
  lemma TotalBound(s: seq<Match>, i: nat)
    requires i < |s|
    ensures s[i].attendance <= TotalAttendance(s)
  {
    TotalRemove(s, i);
  }

  // ---------------------------------------------------------------------------
  // The team set (`d3.set` filled by `forEach` with team1 and team2)

  /** team1 and team2 of every match, in table order: the values added to the set. */
  function Participants(leaves: seq<Match>): seq<string>
  {
    if leaves == [] then []
    else Participants(leaves[..|leaves| - 1]) + [leaves[|leaves| - 1].team1, leaves[|leaves| - 1].team2]
  }

  lemma {:induction false} ParticipantsMembers(leaves: seq<Match>, t: string)
    ensures t in Participants(leaves) <==> Plays(leaves, t)
  {
    if leaves != [] {
      var init := leaves[..|leaves| - 1];
      ParticipantsMembers(init, t);
      if Plays(init, t) {
        var i :| 0 <= i < |init| && (init[i].team1 == t || init[i].team2 == t);
        assert leaves[i] == init[i];
      }
    }
  }

  /** The distinct values of `s`, each at the place of its first occurrence: what the
      `values()` of a set gives after the values of `s` were added in order. */
  function Dedup<T(==,!new)>(s: seq<T>): (r: seq<T>)
    ensures Distinct(r)
    ensures forall x :: x in r <==> x in s
  {
    if s == [] then []
    else
      var d := Dedup(s[..|s| - 1]);
      assert s == s[..|s| - 1] + [s[|s| - 1]];
      if s[|s| - 1] in d then d else d + [s[|s| - 1]]
  }

  /** Adding `x` to a set whose values are `Dedup(s)`. */
  lemma DedupSnoc<T(!new)>(s: seq<T>, x: T)
    ensures Dedup(s + [x]) == if x in Dedup(s) then Dedup(s) else Dedup(s) + [x]
  {
    assert (s + [x])[..|s|] == s;
  }

  /** The `forEach` of `aggregateYear`: add team1 then team2 of each match to a set
      that keeps one copy of each team. */
  method CollectTeams(leaves: seq<Match>) returns (teams: seq<string>)
    ensures teams == Dedup(Participants(leaves))
    ensures Distinct(teams)
    ensures forall t :: t in teams <==> Plays(leaves, t)
  {
    teams := [];
    for i := 0 to |leaves|
      invariant teams == Dedup(Participants(leaves[..i]))
    {
      CollectStep(leaves, i);
      if leaves[i].team1 !in teams {
        teams := teams + [leaves[i].team1];
      }
      if leaves[i].team2 !in teams {
        teams := teams + [leaves[i].team2];
      }
    }
    assert leaves[..|leaves|] == leaves;
    RollupTeams(leaves);
  }

  /** One turn of the `forEach`: the set after the first i + 1 matches is the set after
      the first i matches with team1, then team2, of match i added. */
  lemma CollectStep(leaves: seq<Match>, i: nat)
    requires i < |leaves|
    ensures var d := Dedup(Participants(leaves[..i]));
            var d1 := if leaves[i].team1 in d then d else d + [leaves[i].team1];
            Dedup(Participants(leaves[..i + 1]))
              == if leaves[i].team2 in d1 then d1 else d1 + [leaves[i].team2]
  {
    var p := Participants(leaves[..i]);
    assert leaves[..i + 1][..i] == leaves[..i];
    assert Participants(leaves[..i + 1]) == p + [leaves[i].team1] + [leaves[i].team2];
    DedupSnoc(p, leaves[i].team1);
    DedupSnoc(p + [leaves[i].team1], leaves[i].team2);
  }

  // ---------------------------------------------------------------------------
  // One year's aggregate

  /** The attendance and team part of `aggregateYear(leaves)`. */
  function Rollup(leaves: seq<Match>): YearAggregate
  {
    YearAggregate(TotalAttendance(leaves), Dedup(Participants(leaves)))
  }

  /** `aggregateYear`: sum the attendance and collect the teams of one year's matches. */
  method AggregateYear(leaves: seq<Match>) returns (agg: YearAggregate)
    ensures agg == Rollup(leaves)
    ensures agg.attendance == TotalAttendance(leaves)
    ensures Distinct(agg.teams)
    ensures forall t :: t in agg.teams <==> Plays(leaves, t)
  {
    var total := TotalAttendance(leaves);
    var teams := CollectTeams(leaves);
    agg := YearAggregate(total, teams);
  }

  /** The teams of an aggregate are exactly those that played, each listed once. */
  lemma RollupTeams(leaves: seq<Match>)
    ensures Distinct(Rollup(leaves).teams)
    ensures forall t :: t in Rollup(leaves).teams <==> Plays(leaves, t)
  {
    forall t
      ensures t in Rollup(leaves).teams <==> Plays(leaves, t)
    {
      ParticipantsMembers(leaves, t);
    }
  }

  /** Reordering the matches of a year changes neither its total nor which teams it
      lists (the order of the team list follows the table, so it may change). */
  lemma RollupOrderIndependent(a: seq<Match>, b: seq<Match>)
    requires multiset(a) == multiset(b)
    ensures Rollup(a).attendance == Rollup(b).attendance
    ensures forall t :: t in Rollup(a).teams <==> t in Rollup(b).teams
  {
    TotalPermutation(a, b);
    RollupTeams(a);
    RollupTeams(b);
    forall t | Plays(a, t)
      ensures Plays(b, t)
    {
      var i :| 0 <= i < |a| && (a[i].team1 == t || a[i].team2 == t);
      assert a[i] in multiset(b);
      var j :| 0 <= j < |b| && b[j] == a[i];
    }
    forall t | Plays(b, t)
      ensures Plays(a, t)
    {
      var j :| 0 <= j < |b| && (b[j].team1 == t || b[j].team2 == t);
      assert b[j] in multiset(a);
      var i :| 0 <= i < |a| && a[i] == b[j];
    }
  }

  /** Two matches of one year, seen by 30000 and 50000 people, between teams A and B
      and between A and C: 80000 spectators and the teams A, B and C in that order. */
  lemma RollupExample(a: string, b: string, c: string)
    requires a != b && a != c && b != c
    ensures Rollup([Match(1930, 30000, a, b), Match(1930, 50000, a, c)])
         == YearAggregate(80000, [a, b, c])
  {
    ExampleTotal([Match(1930, 30000, a, b), Match(1930, 50000, a, c)]);
    ExampleParticipants([Match(1930, 30000, a, b), Match(1930, 50000, a, c)]);
    ExampleDedup(a, b, c);
  }

  lemma ExampleTotal(leaves: seq<Match>)
    requires |leaves| == 2 && leaves[0].attendance == 30000 && leaves[1].attendance == 50000
    ensures TotalAttendance(leaves) == 80000
  {
    assert TotalAttendance(leaves[1..][1..]) == 0;
    assert TotalAttendance(leaves[1..]) == 50000;
  }

  lemma ExampleParticipants(leaves: seq<Match>)
    requires |leaves| == 2
    ensures Participants(leaves) == [leaves[0].team1, leaves[0].team2, leaves[1].team1, leaves[1].team2]
  {
    assert Participants(leaves[..1][..0]) == [];
    assert Participants(leaves[..1]) == [leaves[0].team1, leaves[0].team2];
  }

  lemma ExampleDedup(a: string, b: string, c: string)
    requires a != b && a != c && b != c
    ensures Dedup([a, b, a, c]) == [a, b, c]
  {
    ExampleDedupPrefix(a, b);
    assert [a, b, a, c][..3] == [a, b, a];
  }

  lemma ExampleDedupPrefix(a: string, b: string)
    requires a != b
    ensures Dedup([a, b, a]) == [a, b]
  {
    assert [a][..0] == [];
    assert Dedup([a]) == [a];
    assert [a, b][..1] == [a];
    assert Dedup([a, b]) == [a, b];
    assert [a, b, a][..2] == [a, b];
  }

  // ---------------------------------------------------------------------------
  // Grouping by year (`d3.nest().key(year).rollup(aggregateYear).entries(data)`)

  /** The year of each match, in table order. */
  function YearsOf(data: seq<Match>): seq<int>
  {
    seq(|data|, i requires 0 <= i < |data| => data[i].year)
  }

  /** The matches of `data` played in `year`, in table order: the leaves of its group.
      Each of them is kept as often as it occurs in `data`, and no other match is kept. */
  function LeavesOf(data: seq<Match>, year: int): (r: seq<Match>)
    ensures forall m :: m in r <==> m in data && m.year == year
    ensures forall m :: multiset(r)[m] == if m.year == year then multiset(data)[m] else 0
  {
    if data == [] then []
    else
      assert data == [data[0]] + data[1..];
      (if data[0].year == year then [data[0]] else []) + LeavesOf(data[1..], year)
  }

  /** The grouped table: one entry per distinct year, each holding the aggregate of
      that year's matches. The order of the entries is not part of the model: the
      table is sorted in place by attendance before any entry is read (see
      `SelectPermutation`). */
  function Nest(data: seq<Match>): seq<Entry>
  {
    var keys := Dedup(YearsOf(data));
    seq(|keys|, i requires 0 <= i < |keys| => Entry(keys[i], Rollup(LeavesOf(data, keys[i]))))
  }

  /** Grouping makes one entry for each year in which a match was played and for no
      other year, and gives each entry the aggregate of exactly that year's matches. */
  lemma NestGroups(data: seq<Match>)
    ensures KeysDistinct(Nest(data))
    ensures forall i :: 0 <= i < |Nest(data)| ==> HasYear(data, Nest(data)[i].key)
    ensures forall i :: 0 <= i < |data| ==> exists k :: 0 <= k < |Nest(data)| && Nest(data)[k].key == data[i].year
    ensures forall i :: 0 <= i < |Nest(data)| ==> Nest(data)[i].values == Rollup(LeavesOf(data, Nest(data)[i].key))
  {
    NestKeys(data);
    forall i | 0 <= i < |Nest(data)|
      ensures HasYear(data, Nest(data)[i].key)
    {
      NestKeyFromData(data, i);
    }
    forall i | 0 <= i < |data|
      ensures exists k :: 0 <= k < |Nest(data)| && Nest(data)[k].key == data[i].year
    {
      NestKeyOfMatch(data, i);
    }
  }

  /** The keys of the grouped table are the distinct match years. */
  lemma NestKeys(data: seq<Match>)
    ensures |Nest(data)| == |Dedup(YearsOf(data))|
    ensures forall i :: 0 <= i < |Nest(data)| ==> Nest(data)[i].key == Dedup(YearsOf(data))[i]
    ensures KeysDistinct(Nest(data))
  {
  }

  lemma NestKeyFromData(data: seq<Match>, i: nat)
    requires i < |Nest(data)|
    ensures HasYear(data, Nest(data)[i].key)
  {
    NestKeys(data);
    var years := YearsOf(data);
    assert Dedup(years)[i] in years;
    var j :| 0 <= j < |years| && years[j] == Dedup(years)[i];
  }

  lemma NestKeyOfMatch(data: seq<Match>, i: nat)
    requires i < |data|
    ensures exists k :: 0 <= k < |Nest(data)| && Nest(data)[k].key == data[i].year
  {
    NestKeys(data);
    var years := YearsOf(data);
    assert years[i] in Dedup(years);
    var k :| 0 <= k < |Dedup(years)| && Dedup(years)[k] == years[i];
    assert Nest(data)[k].key == data[i].year;
  }

  /** The attendance of all entries of a grouped table, added up. */
  function EntriesAttendance(nested: seq<Entry>): nat
  {
    if nested == [] then 0 else nested[0].values.attendance + EntriesAttendance(nested[1..])
  }

  /** The attendance of the matches of each year in `keys`, added up over `keys`. */
  function GroupTotals(data: seq<Match>, keys: seq<int>): nat
  {
    if keys == [] then 0 else TotalAttendance(LeavesOf(data, keys[0])) + GroupTotals(data, keys[1..])
  }

  lemma {:induction false} GroupTotalsEmpty(keys: seq<int>)
    ensures GroupTotals([], keys) == 0
  {
    if keys != [] {
      GroupTotalsEmpty(keys[1..]);
    }
  }

  /** The first match of the table adds its attendance to the group of its own year,
      and to no other group. */
  lemma {:induction false} GroupTotalsFirst(data: seq<Match>, keys: seq<int>)
    requires data != [] && Distinct(keys)
    ensures GroupTotals(data, keys)
         == (if data[0].year in keys then data[0].attendance else 0) + GroupTotals(data[1..], keys)
  {
    if keys != [] {
      var k := keys[0];
      var head := if data[0].year == k then [data[0]] else [];
      assert LeavesOf(data, k) == head + LeavesOf(data[1..], k);
      TotalAppend(head, LeavesOf(data[1..], k));
      assert Distinct(keys[1..]);
      GroupTotalsFirst(data, keys[1..]);
      assert data[0].year in keys <==> data[0].year == k || data[0].year in keys[1..];
      assert data[0].year == k ==> data[0].year !in keys[1..];
    }
  }

  /** Adding up the groups of distinct keys that cover every match year gives the
      attendance of the whole table: every match is counted once. */
  lemma {:induction false} GroupTotalsCover(data: seq<Match>, keys: seq<int>)
    requires Distinct(keys)
    requires forall m :: m in data ==> m.year in keys
    ensures GroupTotals(data, keys) == TotalAttendance(data)
    decreases |data|
  {
    if data == [] {
      GroupTotalsEmpty(keys);
    } else {
      assert data[0] in data;
      GroupTotalsFirst(data, keys);
      assert forall m :: m in data[1..] ==> m in data;
      GroupTotalsCover(data[1..], keys);
    }
  }

  lemma {:induction false} EntriesAttendanceOfKeys(data: seq<Match>, keys: seq<int>, nested: seq<Entry>)
    requires |nested| == |keys|
    requires forall i :: 0 <= i < |keys| ==> nested[i].values == Rollup(LeavesOf(data, keys[i]))
    ensures EntriesAttendance(nested) == GroupTotals(data, keys)
  {
    if keys != [] {
      EntriesAttendanceOfKeys(data, keys[1..], nested[1..]);
    }
  }

  /** The bubbles of all years together account for every spectator of the table:
      the group totals add up to the attendance of all matches. */
  lemma NestTotal(data: seq<Match>)
    ensures EntriesAttendance(Nest(data)) == TotalAttendance(data)
  {
    var keys := Dedup(YearsOf(data));
    NestKeys(data);
    EntriesAttendanceOfKeys(data, keys, Nest(data));
    forall m | m in data
      ensures m.year in keys
    {
      var i :| 0 <= i < |data| && data[i] == m;
      assert YearsOf(data)[i] == m.year;
    }
    GroupTotalsCover(data, keys);
  }

  // ---------------------------------------------------------------------------
  // The year filter of `update(year)`

  /** `nested.filter(d => d.key is year)`: the entries of `nested` keyed by `year`,
      in their order in `nested`. */
  function Select(nested: seq<Entry>, year: int): seq<Entry>
  {
    if nested == [] then []
    else (if nested[0].key == year then [nested[0]] else []) + Select(nested[1..], year)
  }

  /** The filter keeps exactly the entries keyed by `year`, and no more entries than
      there were. */
  lemma {:induction false} SelectKeeps(nested: seq<Entry>, year: int)
    ensures |Select(nested, year)| <= |nested|
    ensures forall e :: e in Select(nested, year) <==> e in nested && e.key == year
  {
    if nested != [] {
      SelectKeeps(nested[1..], year);
      assert nested == [nested[0]] + nested[1..];
    }
  }

  /** With one entry per year, the filter yields that entry alone, or nothing when no
      entry has the year. */
  lemma {:induction false} SelectUnique(nested: seq<Entry>, year: int)
    requires KeysDistinct(nested)
    ensures forall i :: 0 <= i < |nested| && nested[i].key == year ==> Select(nested, year) == [nested[i]]
    ensures (forall i :: 0 <= i < |nested| ==> nested[i].key != year) ==> Select(nested, year) == []
  {
    if nested != [] {
      SelectUnique(nested[1..], year);
      if nested[0].key == year {
        assert forall i :: 0 <= i < |nested| - 1 ==> nested[1..][i].key != year;
      } else {
        forall i | 0 < i < |nested| && nested[i].key == year
          ensures Select(nested, year) == [nested[i]]
        {
          assert nested[1..][i - 1] == nested[i];
        }
      }
    }
  }

  /** The grouped table is sorted in place by attendance before any year is shown;
      with one entry per year any reordering leaves the filter's result unchanged. */
  lemma SelectPermutation(a: seq<Entry>, b: seq<Entry>, year: int)
    requires multiset(a) == multiset(b)
    requires KeysDistinct(a) && KeysDistinct(b)
    ensures Select(a, year) == Select(b, year)
  {
    SelectUnique(a, year);
    SelectUnique(b, year);
    if i :| 0 <= i < |a| && a[i].key == year {
      assert a[i] in multiset(b);
      var j :| 0 <= j < |b| && b[j] == a[i];
    } else {
      forall j | 0 <= j < |b|
        ensures b[j].key != year
      {
        assert b[j] in multiset(a);
      }
    }
  }

  /** Filtering the grouped table by a year gives that year's aggregate exactly when
      some match was played in that year, and nothing otherwise. */
  lemma SelectNest(data: seq<Match>, year: int)
    ensures HasYear(data, year) ==> Select(Nest(data), year) == [Entry(year, Rollup(LeavesOf(data, year)))]
    ensures !HasYear(data, year) ==> Select(Nest(data), year) == []
  {
    var nested := Nest(data);
    NestGroups(data);
    SelectUnique(nested, year);
    if HasYear(data, year) {
      var i :| 0 <= i < |data| && data[i].year == year;
      var k :| 0 <= k < |nested| && nested[k].key == data[i].year;
    }
  }
}

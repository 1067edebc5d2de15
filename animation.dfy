/**
 The animation of the map: `update(year)` draws one year of the grouped table, and
 a one-second interval steps a cursor through the year list, drawing one year per
 tick, until the list is exhausted; then the interval is cleared and one button per
 year lets the viewer draw any year again. The drawing itself is reduced to the
 frame it shows: the heading's year, the bubbles bound to the data, and the teams
 whose countries are highlighted.
 */
module Animation {
  import opened Wrappers
  import opened Aggregation

  /** What one call of `update(year)` leaves on screen. */
  datatype Frame = Frame(heading: int, circles: seq<Entry>, highlighted: seq<string>)

  /** `update(year)`: keep the entries of `nested` keyed by `year`, bind them to the
      bubbles, and highlight the teams of the first of them. Reading the first entry
      of an empty filter result throws, which `None` stands for. */
  function Render(nested: seq<Entry>, year: int): Option<Frame>
  {
    var filtered := Select(nested, year);
    if |filtered| == 0 then None
    else Some(Frame(year, filtered, filtered[0].values.teams))
  }

  /** A year draws exactly when some entry has it as key; the frame is headed by the
      year, shows the bubbles of exactly the entries with that key, and highlights
      the teams of one of them. */
  lemma RenderSelects(nested: seq<Entry>, year: int)
    ensures Render(nested, year).Some? <==> exists i :: 0 <= i < |nested| && nested[i].key == year
    ensures Render(nested, year).Some? ==>
              var f := Render(nested, year).value;
              f.heading == year
              && (forall e :: e in f.circles <==> e in nested && e.key == year)
              && exists i :: 0 <= i < |nested| && nested[i].key == year && f.highlighted == nested[i].values.teams
  {
    var filtered := Select(nested, year);
    SelectKeeps(nested, year);
    if |filtered| == 0 {
      assert forall i :: 0 <= i < |nested| ==> nested[i] !in filtered;
    } else {
      assert filtered[0] in filtered;
    }
  }

  /** On the grouped match table a year draws exactly when a match was played in it:
      one bubble for the year's aggregate, and the highlighted teams are exactly the
      teams of that year's matches, each once. */
  lemma RenderNest(data: seq<Match>, year: int)
    ensures Render(Nest(data), year).Some? <==> HasYear(data, year)
    ensures HasYear(data, year) ==>
              Render(Nest(data), year) == Some(Frame(year, [Entry(year, Rollup(LeavesOf(data, year)))],
                                                     Rollup(LeavesOf(data, year)).teams))
    ensures HasYear(data, year) ==>
              Distinct(Render(Nest(data), year).value.highlighted)
              && forall t :: t in Render(Nest(data), year).value.highlighted <==> Plays(LeavesOf(data, year), t)
  {
    var leaves := LeavesOf(data, year);
    SelectNest(data, year);
    RollupTeams(leaves);
    if HasYear(data, year) {
      assert Select(Nest(data), year) == [Entry(year, Rollup(leaves))];
      assert Render(Nest(data), year) == Some(Frame(year, [Entry(year, Rollup(leaves))], Rollup(leaves).teams));
    } else {
      assert Select(Nest(data), year) == [];
    }
  }

  /** Sorting the grouped table by attendance, as the code does before the first
      tick, does not change what any year draws. */
  lemma RenderPermutation(a: seq<Entry>, b: seq<Entry>, year: int)
    requires multiset(a) == multiset(b)
    requires KeysDistinct(a) && KeysDistinct(b)
    ensures Render(a, year) == Render(b, year)
  {
    SelectPermutation(a, b, year);
  }

  /** The state the interval callback and the year buttons share: the year list, the
      grouped table, the cursor `yearCounter`, whether the interval was cleared (and
      how often), the buttons shown, the active button, and every frame drawn so far. */
  class Animator {
    const years: seq<int>
    const nested: seq<Entry>
    var counter: nat
    var done: bool
    var clears: nat
    var buttons: seq<int>
    var active: Option<int>
    var frames: seq<Frame>

    /** While the interval runs, the frames drawn are the first `counter` years, in
        order; it is cleared once, exactly when the cursor reaches the end of a
        non-empty year list, and the buttons (one per year) appear only then. */
    ghost predicate Valid()
      reads this
    {
      counter <= |years|
      && done == (|years| > 0 && counter == |years|)
      && clears == (if done then 1 else 0)
      && buttons == (if done then years else [])
      && counter <= |frames|
      && (forall i :: 0 <= i < counter ==> Render(nested, years[i]) == Some(frames[i]))
      && (!done ==> |frames| == counter && active == None)
    }

    /** The state when the table has loaded and the interval has just been set. */
    constructor (years: seq<int>, nested: seq<Entry>)
      ensures Valid()
      ensures this.years == years && this.nested == nested
      ensures counter == 0 && !done && clears == 0 && buttons == [] && active == None && frames == []
    {
      this.years := years;
      this.nested := nested;
      counter := 0;
      done := false;
      clears := 0;
      buttons := [];
      active := None;
      frames := [];
    }

    /** One firing of the interval: draw `years[counter]` and advance the cursor; when
        it reaches the end, clear the interval and show the buttons. If the draw throws
        (no entry for the year, or an empty year list, where the year read is
        undefined), the callback stops before advancing and nothing changes. */
    method Tick() returns (ok: bool)
      requires Valid() && !done
      modifies this
      ensures Valid()
      ensures ok == (old(counter) < |years| && Render(nested, years[old(counter)]).Some?)
      ensures ok ==> counter == old(counter) + 1
                     && frames == old(frames) + [Render(nested, years[old(counter)]).value]
      ensures !ok ==> counter == old(counter) && frames == old(frames)
      ensures done <==> ok && counter == |years|
      ensures active == old(active)
    {
      ok := false;
      if counter < |years| {
        var r := Render(nested, years[counter]);
        if r.Some? {
          ghost var before := frames;
          frames := frames + [r.value];
          counter := counter + 1;
          ok := true;
          assert forall i :: 0 <= i < counter - 1 ==> frames[i] == before[i];
          if counter >= |years| {
            done := true;
            clears := clears + 1;
            buttons := years;
          }
        }
      }
    }

    /** A click on the button of `year`: mark it active and draw that year, leaving the
        cursor and the cleared interval alone. */
    method Click(year: int) returns (ok: bool)
      requires Valid() && done && year in buttons
      modifies this
      ensures Valid()
      ensures counter == old(counter) && done && clears == 1 && buttons == years
      ensures active == Some(year)
      ensures ok == Render(nested, year).Some?
      ensures frames == if ok then old(frames) + [Render(nested, year).value] else old(frames)
    {
      active := Some(year);
      var r := Render(nested, year);
      ok := r.Some?;
      if ok {
        frames := frames + [r.value];
      }
    }
  }
}

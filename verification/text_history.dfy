/** The versioned text history: the current text, its version, and the
    append-only log of every action applied to reach it. */
module History {
  import opened Slicing
  import opened Actions
  import opened Optimizing

  /** `a` lies inside the version range [lo, hi]. */
  predicate Within(a: Action, lo: int, hi: int)
  {
    lo <= a.fromVersion && a.toVersion.Some? && a.toVersion.value <= hi
  }

  /** The range filter compares `a.toVersion` only once `lo <= a.fromVersion`
      holds, and comparing with a missing version fails. */
  predicate Incomparable(a: Action, lo: int)
  {
    lo <= a.fromVersion && a.toVersion.None?
  }

  /** The log entries inside the range [lo, hi], in log order. */
  function Window(log: seq<Action>, lo: int, hi: int): (r: Result<seq<Action>>)
    ensures r.Ok? <==> forall i :: 0 <= i < |log| ==> !Incomparable(log[i], lo)
    ensures r.Err? ==> r.error == TypeError
    ensures r.Ok? ==> |r.value| <= |log|
    ensures r.Ok? ==> forall a :: a in r.value <==> a in log && Within(a, lo, hi)
    decreases |log|
  {
    if log == [] then Ok([])
    else if Incomparable(log[0], lo) then Err(TypeError)
    else match Window(log[1..], lo, hi)
      case Err(e) => Err(e)
      case Ok(w) => Ok((if Within(log[0], lo, hi) then [log[0]] else []) + w)
  }

  /** The filter keeps log order: filtering a log extended by one action is
      filtering the log and then keeping or dropping that action. */
  lemma {:induction false} WindowSnoc(log: seq<Action>, a: Action, lo: int, hi: int)
    ensures Window(log + [a], lo, hi) ==
      if Window(log, lo, hi).Err? || Incomparable(a, lo) then Err(TypeError)
      else Ok(Window(log, lo, hi).value + (if Within(a, lo, hi) then [a] else []))
    decreases |log|
  {
    if log == [] {
      assert log + [a] == [a] && [a][1..] == [];
      var tail: seq<Action> := if Within(a, lo, hi) then [a] else [];
      assert tail + [] == tail && [] + tail == tail;
    } else {
      assert (log + [a])[0] == log[0];
      assert (log + [a])[1..] == log[1..] + [a];
      WindowSnoc(log[1..], a, lo, hi);
      if !Incomparable(log[0], lo) && Window(log[1..], lo, hi).Ok? && !Incomparable(a, lo) {
        var head := if Within(log[0], lo, hi) then [log[0]] else [];
        var tail := if Within(a, lo, hi) then [a] else [];
        var w := Window(log[1..], lo, hi).value;
        assert head + (w + tail) == (head + w) + tail;
      }
    }
  }

  /** A log whose every action lies inside the range is its own window. */
  lemma {:induction false} WindowOfContainedLog(log: seq<Action>, lo: int, hi: int)
    requires forall i :: 0 <= i < |log| ==> Within(log[i], lo, hi)
    ensures Window(log, lo, hi) == Ok(log)
    decreases |log|
  {
    if log != [] {
      WindowOfContainedLog(log[1..], lo, hi);
      assert [log[0]] + log[1..] == log;
    }
  }

  class TextHistory {
    var text: string
    var version: int
    var actions: seq<Action>
    /** Cached length of `text`, used to validate positions. */
    var len: nat

    /** The cached length is the text's, the text is the log replayed from
        the empty text, and the version is 0 for an empty log and otherwise
        the last action's target version, whenever that action has one. */
    ghost predicate Valid()
      reads this
    {
      && len == |text|
      && text == ApplyAll(actions, "")
      && (actions == [] ==> version == 0)
      && (actions != [] && actions[|actions| - 1].toVersion.Some? ==>
            version == actions[|actions| - 1].toVersion.value)
    }

    constructor ()
      ensures Valid()
      ensures text == "" && version == 0 && actions == []
    {
      text := "";
      version := 0;
      actions := [];
      len := 0;
    }

    /** The position an edit applies at: the end of the text when none is
        given, the given position when it lies inside the text. */
    function CheckPosition(pos: Option<int>): (r: Result<int>)
      reads this
      ensures r.Ok? <==> pos.None? || 0 <= pos.value <= len
      ensures r.Ok? ==> 0 <= r.value <= len
      ensures r.Ok? && pos.None? ==> r.value == len
      ensures r.Ok? && pos.Some? ==> r.value == pos.value
      ensures r.Err? ==> r.error == PositionError
    {
      if pos.None? then Ok(len)
      else if pos.value < 0 || pos.value > len then Err(PositionError)
      else Ok(pos.value)
    }

    /** Records and applies an action. A zero-span action is refused unless
        it starts at the current version; every other action is accepted,
        whatever its starting version. The version becomes the action's
        target version, or the next version when it has none. */
    method ApplyAction(a: Action) returns (r: Result<int>)
      requires Valid()
      modifies this
      ensures Valid()
      ensures a.toVersion == Some(a.fromVersion) && a.fromVersion != old(version) ==>
        r == Err(VersionError) && unchanged(this)
      ensures !(a.toVersion == Some(a.fromVersion) && a.fromVersion != old(version)) ==>
        && version == (if a.toVersion.None? then old(version) + 1 else a.toVersion.value)
        && r == Ok(version)
        && text == a.Apply(old(text))
        && actions == old(actions) + [a]
    {
      if a.fromVersion != version && a.toVersion == Some(a.fromVersion) {
        return Err(VersionError);
      }
      if a.toVersion.None? {
        version := version + 1;
      } else {
        version := a.toVersion.value;
      }
      ApplyAllSnoc(actions, a, "");
      text := a.Apply(text);
      actions := actions + [a];
      len := |text|;
      r := Ok(version);
    }

    /** Inserts `t` at `pos` (the end by default), moving to version `ver`
        (the next version by default). */
    method Insert(t: string, pos: Option<int>, ver: Option<int>) returns (r: Result<int>)
      requires Valid()
      modifies this
      ensures Valid()
      ensures pos.Some? && !(0 <= pos.value <= old(|text|)) ==> r == Err(PositionError) && unchanged(this)
      ensures pos.None? || 0 <= pos.value <= old(|text|) ==>
        var p := if pos.None? then old(|text|) else pos.value;
        var v := if ver.None? then old(version) + 1 else ver.value;
        && r == Ok(v) && version == v
        && actions == old(actions) + [Action.Insert(p, t, old(version), Some(v))]
        && text == old(text)[..p] + t + old(text)[p..]
    {
      var c := CheckPosition(pos);
      if c.Err? {
        return Err(c.error);
      }
      var v := if ver.None? then version + 1 else ver.value;
      r := ApplyAction(Action.Insert(c.value, t, version, Some(v)));
    }

    /** Overwrites |t| characters at `pos` (the end by default) with `t`,
        extending the text when `t` runs past its end. */
    method Replace(t: string, pos: Option<int>, ver: Option<int>) returns (r: Result<int>)
      requires Valid()
      modifies this
      ensures Valid()
      ensures pos.Some? && !(0 <= pos.value <= old(|text|)) ==> r == Err(PositionError) && unchanged(this)
      ensures pos.None? || 0 <= pos.value <= old(|text|) ==>
        var p := if pos.None? then old(|text|) else pos.value;
        var v := if ver.None? then old(version) + 1 else ver.value;
        && r == Ok(v) && version == v
        && actions == old(actions) + [Action.Replace(p, t, old(version), Some(v))]
        && text == old(text)[..p] + t + (if p + |t| <= old(|text|) then old(text)[p + |t|..] else "")
    {
      var c := CheckPosition(pos);
      if c.Err? {
        return Err(c.error);
      }
      var v := if ver.None? then version + 1 else ver.value;
      r := ApplyAction(Action.Replace(c.value, t, version, Some(v)));
    }

    /** Deletes `length` characters at `pos`. The length is checked against
        the slice `text[pos:pos + length]` before the position is validated,
        so a missing position fails (it cannot be added to) and an invalid one
        may be reported as a length error. */
    method Delete(length: int, pos: Option<int>, ver: Option<int>) returns (r: Result<int>)
      requires Valid()
      modifies this
      ensures Valid()
      ensures pos.None? ==> r == Err(TypeError) && unchanged(this)
      ensures pos.Some? && !(0 <= pos.value <= old(|text|)) ==>
        var p := pos.value;
        r == Err(if length > |Slice(old(text), p, p + length)| then LengthError else PositionError)
        && unchanged(this)
      ensures pos.Some? && 0 <= pos.value <= old(|text|) && 0 < length && pos.value + length > old(|text|) ==>
        r == Err(LengthError) && unchanged(this)
      ensures pos.Some? && 0 <= pos.value <= old(|text|) && !(0 < length && pos.value + length > old(|text|)) ==>
        var p := pos.value;
        var v := if ver.None? then old(version) + 1 else ver.value;
        && r == Ok(v) && version == v
        && actions == old(actions) + [Action.Delete(p, length, old(version), Some(v))]
        && text == old(text)[..p] + old(text)[Bound(p + length, old(|text|))..]
        && (0 <= length ==> |text| == old(|text|) - length && text == old(text)[..p] + old(text)[p + length..])
    {
      if pos.None? {
        return Err(TypeError);
      }
      if length > |Slice(text, pos.value, pos.value + length)| {
        return Err(LengthError);
      }
      var c := CheckPosition(pos);
      if c.Err? {
        return Err(c.error);
      }
      var v := if ver.None? then version + 1 else ver.value;
      r := ApplyAction(Action.Delete(c.value, length, version, Some(v)));
    }

    /** The compacted actions of the range [lo, hi] (`hi` defaults to the
        current version). An empty window gives no actions; a window of one
        action makes the optimizer fail. */
    method GetActions(lo: int, hi: Option<int>) returns (r: Result<seq<Action>>)
      ensures var top := if hi.None? then version else hi.value;
        r == if lo < 0 || lo > top || top > version then Err(RangeError)
             else match Window(actions, lo, top)
               case Err(e) => Err(e)
               case Ok(w) =>
                 if w == [] then Ok([])
                 else if |w| < 2 then Err(IndexError)
                 else Ok(Optimized(AsWritten, w))
    {
      var top := if hi.None? then version else hi.value;
      if lo < 0 || lo > top || top > version {
        return Err(RangeError);
      }
      var w := Window(actions, lo, top);
      if w.Err? {
        return Err(w.error);
      }
      if w.value == [] {
        return Ok([]);
      }
      var optimizer := new Optimizer(w.value);
      var ok := optimizer.Optimize();
      if !ok {
        return Err(IndexError);
      }
      var out := optimizer.GetOptimized();
      assert out == Optimized(AsWritten, w.value);
      r := Ok(out);
    }
  }

  /** The round trip of a full-range query: when every logged action lies
      inside [0, version], the query's window is the whole log, and its
      compaction under the checked merge rule replays to the current text. */
  lemma FullRangeQueryReplays(h: TextHistory)
    requires h.Valid()
    requires forall i :: 0 <= i < |h.actions| ==> Within(h.actions[i], 0, h.version)
    ensures Window(h.actions, 0, h.version) == Ok(h.actions)
    ensures ApplyAll(Optimized(Checked, h.actions), "") == h.text
  {
    WindowOfContainedLog(h.actions, 0, h.version);
    OptimizedCheckedReplays(h.actions, "");
  }

  /** A log made with default versions and explicit positions: "xyz"
      inserted, its first character overwritten by "x" at 0 (the text is
      unchanged), then "a" inserted at 0 and "b" at 3. */
  function NestedPastEndLog(): seq<Action>
  {
    [Action.Insert(0, "xyz", 0, Some(1)), Action.Replace(0, "x", 1, Some(2)),
     Action.Insert(0, "a", 2, Some(3)), Action.Insert(3, "b", 3, Some(4))]
  }

  lemma NestedPastEndLogReplays()
    ensures ApplyAll(NestedPastEndLog(), "") == "axybz"
  {
    var log := NestedPastEndLog();
    var l1, l2, l3 := log[1..], log[2..], log[3..];
    assert l1[1..] == l2 && l2[1..] == l3 && l3[1..] == [];
    assert log[0].Apply("") == "xyz";
    assert ApplyAll(log, "") == ApplyAll(l1, "xyz");
    assert l1[0].Apply("xyz") == "x" + "yz" == "xyz";
    assert ApplyAll(l1, "xyz") == ApplyAll(l2, "xyz");
    assert l2[0].Apply("xyz") == "a" + "xyz" == "axyz";
    assert ApplyAll(l2, "xyz") == ApplyAll(l3, "axyz");
    assert l3[0].Apply("axyz") == "axy" + "b" + "z" == "axybz";
    assert ApplyAll(l3, "axyz") == ApplyAll([], "axybz");
  }

  lemma NestedPastEndLogCompacts()
    ensures Optimized(AsWritten, NestedPastEndLog())
         == [Action.Insert(0, "xyz", 0, Some(1)), Action.Replace(0, "x", 1, Some(2)), Action.Insert(0, "ab", 2, Some(4))]
  {
    var log := NestedPastEndLog();
    var m := Action.Insert(0, "ab", 2, Some(4));
    assert Take("a", 3) + "b" + Drop("a", 3) == "ab";
    assert Merge(AsWritten, log[2], log[3]) == Some(m);
    assert log[1..] == [log[1], log[2], log[3]] && [log[1], log[2], log[3]][1..] == [log[2], log[3]];
    assert Compact(AsWritten, log[2], [log[3]]) == [m];
    assert Compact(AsWritten, log[1], [log[2], log[3]]) == [log[1], m];
  }

  /** Under the merge rule as written the full-range round trip fails, even
      for a log made with default versions (and explicit positions inside
      the text) whose actions all lie inside the range: the log replays to
      "axybz", its compaction to "abxyz". */
  lemma AsWrittenQueryBreaksReplay()
    ensures forall i :: 0 <= i < |NestedPastEndLog()| ==> Within(NestedPastEndLog()[i], 0, 4)
    ensures ApplyAll(NestedPastEndLog(), "") == "axybz"
    ensures ApplyAll(Optimized(AsWritten, NestedPastEndLog()), "") == "abxyz"
  {
    NestedPastEndLogReplays();
    NestedPastEndLogCompacts();
    var c := [Action.Insert(0, "xyz", 0, Some(1)), Action.Replace(0, "x", 1, Some(2)), Action.Insert(0, "ab", 2, Some(4))];
    var c1, c2 := c[1..], c[2..];
    assert c1[1..] == c2 && c2[1..] == [];
    assert c[0].Apply("") == "xyz";
    assert ApplyAll(c, "") == ApplyAll(c1, "xyz");
    assert c1[0].Apply("xyz") == "x" + "yz" == "xyz";
    assert ApplyAll(c1, "xyz") == ApplyAll(c2, "xyz");
    assert c2[0].Apply("xyz") == "ab" + "xyz" == "abxyz";
    assert ApplyAll(c2, "xyz") == ApplyAll([], "abxyz");
  }

  /** The log of the repository's own example (insert "asd", insert "kek"
      at 1, replace by "dea" at 2, delete 2 characters at 3) replays to
      "akdd". */
  lemma ScenarioReplays()
    ensures ApplyAll([Action.Insert(0, "asd", 0, Some(1)), Action.Insert(1, "kek", 1, Some(2)),
                      Action.Replace(2, "dea", 2, Some(3)), Action.Delete(3, 2, 3, Some(4))], "") == "akdd"
  {
    var i1, i2 := Action.Insert(0, "asd", 0, Some(1)), Action.Insert(1, "kek", 1, Some(2));
    var rp, dl := Action.Replace(2, "dea", 2, Some(3)), Action.Delete(3, 2, 3, Some(4));
    assert i1.Apply("") == "asd";
    assert i2.Apply("asd") == "a" + "kek" + "sd" == "akeksd";
    assert rp.Apply("akeksd") == "ak" + "dea" + "d" == "akdead";
    assert dl.Apply("akdead") == "akd" + "d" == "akdd";
    assert [i1, i2, rp, dl][1..] == [i2, rp, dl] && [i2, rp, dl][1..] == [rp, dl] && [rp, dl][1..] == [dl];
    assert ApplyAll([dl], "akdead") == ApplyAll([], "akdd");
  }

  /** The log of that example compacts to three actions: the two inserts
      merge (the second lies inside the first, which starts the text). */
  lemma ScenarioLogCompacts()
    ensures Optimized(AsWritten, [Action.Insert(0, "asd", 0, Some(1)), Action.Insert(1, "kek", 1, Some(2)),
                                  Action.Replace(2, "dea", 2, Some(3)), Action.Delete(3, 2, 3, Some(4))])
         == [Action.Insert(0, "akeksd", 0, Some(2)), Action.Replace(2, "dea", 2, Some(3)), Action.Delete(3, 2, 3, Some(4))]
  {
    var i1, i2 := Action.Insert(0, "asd", 0, Some(1)), Action.Insert(1, "kek", 1, Some(2));
    var rp, dl := Action.Replace(2, "dea", 2, Some(3)), Action.Delete(3, 2, 3, Some(4));
    assert Take("asd", 1) + "kek" + Drop("asd", 1) == "akeksd";
    var m := Action.Insert(0, "akeksd", 0, Some(2));
    assert Merge(AsWritten, i1, i2) == Some(m);
    assert Compact(AsWritten, dl, []) == [dl];
    assert Compact(AsWritten, rp, [dl]) == [rp, dl];
    assert Compact(AsWritten, m, [rp, dl]) == [m, rp, dl];
    assert [i1, i2, rp, dl][1..] == [i2, rp, dl] && [i2, rp, dl][1..] == [rp, dl];
  }
}

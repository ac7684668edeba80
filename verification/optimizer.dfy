/** Compaction of an action log: chains of adjacent, version-contiguous
    inserts are merged into one insert, everything else passes through. */
module Optimizing {
  import opened Slicing
  import opened Actions

  /** Which side conditions a merge of two inserts checks. `AsWritten` is
      the rule of text_history.py; `Checked` also demands the bounds under
      which the merged insert replays to the same text (a non-negative first
      position for an adjacent insert, and a second position inside the first
      insert's text for a nested one). */
  datatype MergeRule = AsWritten | Checked

  /** Case (a): the second insert lands right after the first one's text. */
  predicate Adjacent(rule: MergeRule, a1: Action, a2: Action)
    requires a1.Insert? && a2.Insert?
  {
    a1.pos + |a1.text| == a2.pos && (rule == AsWritten || 0 <= a1.pos)
  }

  /** Case (b): the first insert is at the start of the text. */
  predicate Nested(rule: MergeRule, a1: Action, a2: Action)
    requires a1.Insert? && a2.Insert?
  {
    a1.pos == 0 && (rule == AsWritten || 0 <= a2.pos <= |a1.text|)
  }

  /** The single insert that stands for `a1` followed by `a2`, if they merge. */
  function Merge(rule: MergeRule, a1: Action, a2: Action): (r: Option<Action>)
    ensures r.Some? <==>
      && a1.Insert? && a2.Insert?
      && a1.toVersion == Some(a2.fromVersion)
      && (Adjacent(rule, a1, a2) || Nested(rule, a1, a2))
    ensures r.Some? ==>
      && r.value.Insert?
      && r.value.pos == a1.pos
      && r.value.fromVersion == a1.fromVersion
      && r.value.toVersion == a2.toVersion
      && |r.value.text| == |a1.text| + |a2.text|
    ensures r.Some? && Adjacent(rule, a1, a2) ==> r.value.text == a1.text + a2.text
  {
    if !(a1.Insert? && a2.Insert?) || a1.toVersion != Some(a2.fromVersion) then None
    else if Adjacent(rule, a1, a2) then
      Some(Insert(a1.pos, a1.text + a2.text, a1.fromVersion, a2.toVersion))
    else if Nested(rule, a1, a2) then
      TakeDrop(a1.text, a2.pos);
      Some(Insert(a1.pos, Take(a1.text, a2.pos) + a2.text + Drop(a1.text, a2.pos), a1.fromVersion, a2.toVersion))
    else None
  }

  /** Case (a): from a non-negative position, inserting `t1` and then `t2`
      right after it is inserting `t1 + t2`. */
  lemma AdjacentInsertsCompose(p: int, t1: string, t2: string, v1: int, w1: Option<int>, v2: int, w2: Option<int>, s: string)
    requires 0 <= p
    ensures Insert(p, t1 + t2, v1, w2).Apply(s) == Insert(p + |t1|, t2, v2, w2).Apply(Insert(p, t1, v1, w1).Apply(s))
  {
    var b := Bound(p, |s|);
    var x := Insert(p, t1, v1, w1).Apply(s);
    assert x == s[..b] + t1 + s[b..];
    var c := Bound(p + |t1|, |x|);
    assert c == b + |t1|;
    assert x[..c] == s[..b] + t1;
    assert x[c..] == s[b..];
    calc {
      Insert(p + |t1|, t2, v2, w2).Apply(x);
      x[..c] + t2 + x[c..];
      s[..b] + t1 + t2 + s[b..];
      s[..b] + (t1 + t2) + s[b..];
    }
  }

  /** Case (b): inserting `t1` at the start and then `t2` at a position `q`
      inside `t1` is inserting `t1` with `t2` spliced in at `q`. */
  lemma NestedInsertsCompose(t1: string, q: int, t2: string, v1: int, w1: Option<int>, v2: int, w2: Option<int>, s: string)
    requires 0 <= q <= |t1|
    ensures Insert(0, t1[..q] + t2 + t1[q..], v1, w2).Apply(s) == Insert(q, t2, v2, w2).Apply(Insert(0, t1, v1, w1).Apply(s))
  {
    var x := Insert(0, t1, v1, w1).Apply(s);
    assert x == t1 + s;
    assert x[..q] == t1[..q];
    assert x[q..] == t1[q..] + s;
  }

  /** A merged insert replays like the pair it replaces, in case (a) when the
      first position is not negative and in case (b) when the second position
      lies inside the first insert's text; the `Checked` rule merges only then. */
  lemma MergeSound(rule: MergeRule, a1: Action, a2: Action, s: string)
    requires Merge(rule, a1, a2).Some?
    requires rule == Checked || (0 <= a1.pos && (Adjacent(rule, a1, a2) || 0 <= a2.pos <= |a1.text|))
    ensures Merge(rule, a1, a2).value.Apply(s) == a2.Apply(a1.Apply(s))
  {
    if Adjacent(rule, a1, a2) {
      AdjacentInsertsCompose(a1.pos, a1.text, a2.text, a1.fromVersion, a1.toVersion, a2.fromVersion, a2.toVersion, s);
    } else {
      NestedInsertsCompose(a1.text, a2.pos, a2.text, a1.fromVersion, a1.toVersion, a2.fromVersion, a2.toVersion, s);
    }
  }

  /** With the rule as written, merging a nested insert whose position lies
      past the first insert's text does not replay like the pair: on "xyz",
      inserting "a" at 0 and then "b" at 3 gives "axybz", the merged action
      gives "abxyz". */
  lemma AsWrittenMergeBreaksReplay()
    ensures var a1, a2 := Insert(0, "a", 0, Some(1)), Insert(3, "b", 1, Some(2));
      && Merge(AsWritten, a1, a2) == Some(Insert(0, "ab", 0, Some(2)))
      && a2.Apply(a1.Apply("xyz")) == "axybz"
      && Insert(0, "ab", 0, Some(2)).Apply("xyz") == "abxyz"
  {
    var a1, a2 := Insert(0, "a", 0, Some(1)), Insert(3, "b", 1, Some(2));
    assert a1.Apply("xyz") == "axyz";
    assert Take("a", 3) == "a" && Drop("a", 3) == "";
    assert Take("a", 3) + "b" + Drop("a", 3) == "ab";
  }

  /** With the rule as written, merging an adjacent insert after one at a
      negative position does not replay like the pair either: on "ab",
      inserting "x" at -1 and then "y" at 0 gives "yaxb", the merged action
      gives "axyb". */
  lemma AsWrittenAdjacentMergeBreaksReplay()
    ensures var a1, a2 := Insert(-1, "x", 0, Some(1)), Insert(0, "y", 1, Some(2));
      && Merge(AsWritten, a1, a2) == Some(Insert(-1, "xy", 0, Some(2)))
      && a2.Apply(a1.Apply("ab")) == "yaxb"
      && Insert(-1, "xy", 0, Some(2)).Apply("ab") == "axyb"
  {
    var a1, a2 := Insert(-1, "x", 0, Some(1)), Insert(0, "y", 1, Some(2));
    assert Adjacent(AsWritten, a1, a2) && a1.text + a2.text == "xy";
    assert Bound(-1, 2) == 1;
    assert a1.Apply("ab") == "a" + "x" + "b" == "axb";
    assert a2.Apply("axb") == "y" + "axb" == "yaxb";
    assert Insert(-1, "xy", 0, Some(2)).Apply("ab") == "a" + "xy" + "b" == "axyb";
  }

  /** The greedy left-to-right compaction of `[p] + rest`: `p` is the pending
      action; it absorbs the next action while they merge, and is emitted when
      they do not. */
  function Compact(rule: MergeRule, p: Action, rest: seq<Action>): (r: seq<Action>)
    ensures 1 <= |r| <= 1 + |rest|
    // the first output stands where p stood and starts at p's version
    ensures r[0].Insert? == p.Insert? && r[0].pos == p.pos && r[0].fromVersion == p.fromVersion
    ensures !p.Insert? ==> r[0] == p
    decreases |rest|
  {
    if rest == [] then [p]
    else match Merge(rule, p, rest[0])
      case Some(m) => Compact(rule, m, rest[1..])
      case None => [p] + Compact(rule, rest[0], rest[1..])
  }

  /** The compacted form of a whole sequence. */
  function Optimized(rule: MergeRule, s: seq<Action>): (r: seq<Action>)
    ensures |r| <= |s|
    ensures s != [] ==> r != []
  {
    if s == [] then [] else Compact(rule, s[0], s[1..])
  }

  /** The actions of `s` that are not inserts, in order. */
  function NonInserts(s: seq<Action>): (r: seq<Action>)
    ensures |r| <= |s|
    ensures forall a :: a in r ==> a in s && !a.Insert?
  {
    if s == [] then []
    else (if s[0].Insert? then [] else [s[0]]) + NonInserts(s[1..])
  }

  /** Compaction keeps every replace and delete, unchanged and in order. */
  lemma {:induction false} CompactKeepsNonInserts(rule: MergeRule, p: Action, rest: seq<Action>)
    ensures NonInserts(Compact(rule, p, rest)) == NonInserts([p] + rest)
    decreases |rest|
  {
    if rest != [] {
      var rest' := rest[1..];
      assert ([p] + rest)[1..] == rest;
      match Merge(rule, p, rest[0])
      case Some(m) =>
        CompactKeepsNonInserts(rule, m, rest');
        assert ([m] + rest')[1..] == rest';
        assert NonInserts([p] + rest) == NonInserts(rest);
        assert rest == [rest[0]] + rest';
      case None =>
        CompactKeepsNonInserts(rule, rest[0], rest');
        var c := Compact(rule, rest[0], rest');
        assert ([p] + c)[1..] == c;
        assert [rest[0]] + rest' == rest;
    }
  }

  lemma OptimizedKeepsNonInserts(rule: MergeRule, s: seq<Action>)
    ensures NonInserts(Optimized(rule, s)) == NonInserts(s)
  {
    if s != [] {
      CompactKeepsNonInserts(rule, s[0], s[1..]);
      assert [s[0]] + s[1..] == s;
    }
  }

  /** No two neighbours of `s` merge. */
  predicate Irreducible(rule: MergeRule, s: seq<Action>)
  {
    forall i :: 0 < i < |s| ==> Merge(rule, s[i - 1], s[i]).None?
  }

  /** Whether an action merges after `p` depends only on its kind, its
      position and its starting version. */
  lemma MergeDependsOnHead(rule: MergeRule, p: Action, x: Action, y: Action)
    requires x.Insert? == y.Insert? && x.pos == y.pos && x.fromVersion == y.fromVersion
    ensures Merge(rule, p, x).None? == Merge(rule, p, y).None?
  {
  }

  /** No two neighbours of a compaction merge. */
  lemma {:induction false} CompactIrreducible(rule: MergeRule, p: Action, rest: seq<Action>)
    ensures Irreducible(rule, Compact(rule, p, rest))
    decreases |rest|
  {
    if rest != [] {
      match Merge(rule, p, rest[0])
      case Some(m) =>
        CompactIrreducible(rule, m, rest[1..]);
      case None =>
        var c := Compact(rule, rest[0], rest[1..]);
        CompactIrreducible(rule, rest[0], rest[1..]);
        MergeDependsOnHead(rule, p, c[0], rest[0]);
        var r := [p] + c;
        forall i | 0 < i < |r|
          ensures Merge(rule, r[i - 1], r[i]).None?
        {
          if i > 1 {
            assert r[i - 1] == c[i - 2] && r[i] == c[i - 1];
          }
        }
    }
  }

  /** A sequence with no merging neighbours is its own compaction. */
  lemma {:induction false} CompactOfIrreducible(rule: MergeRule, p: Action, rest: seq<Action>)
    requires Irreducible(rule, [p] + rest)
    ensures Compact(rule, p, rest) == [p] + rest
    decreases |rest|
  {
    if rest != [] {
      assert ([p] + rest)[0] == p && ([p] + rest)[1] == rest[0];
      assert Merge(rule, p, rest[0]).None?;
      assert [rest[0]] + rest[1..] == rest;
      forall i | 0 < i < |rest|
        ensures Merge(rule, rest[i - 1], rest[i]).None?
      {
        assert ([p] + rest)[i] == rest[i - 1] && ([p] + rest)[i + 1] == rest[i];
      }
      CompactOfIrreducible(rule, rest[0], rest[1..]);
    }
  }

  /** Compacting twice is compacting once. */
  lemma OptimizedIdempotent(rule: MergeRule, s: seq<Action>)
    ensures Optimized(rule, Optimized(rule, s)) == Optimized(rule, s)
  {
    if s != [] {
      var c := Optimized(rule, s);
      CompactIrreducible(rule, s[0], s[1..]);
      assert [c[0]] + c[1..] == c;
      CompactOfIrreducible(rule, c[0], c[1..]);
    }
  }

  /** Under the checked rule, the compaction of a log replays to the same
      text as the log itself, from any starting text. */
  lemma {:induction false} CompactCheckedReplays(p: Action, rest: seq<Action>, s: string)
    ensures ApplyAll(Compact(Checked, p, rest), s) == ApplyAll([p] + rest, s)
    decreases |rest|
  {
    if rest == [] {
      assert ApplyAll([p], s) == ApplyAll([], p.Apply(s));
    } else {
      var rest' := rest[1..];
      assert ([p] + rest)[1..] == rest;
      match Merge(Checked, p, rest[0])
      case Some(m) =>
        CompactCheckedReplays(m, rest', s);
        MergeSound(Checked, p, rest[0], s);
        assert ([m] + rest')[1..] == rest';
        assert ApplyAll(rest, p.Apply(s)) == ApplyAll(rest', rest[0].Apply(p.Apply(s)));
      case None =>
        var c := Compact(Checked, rest[0], rest');
        CompactCheckedReplays(rest[0], rest', p.Apply(s));
        assert ([p] + c)[1..] == c;
        assert [rest[0]] + rest' == rest;
    }
  }

  lemma OptimizedCheckedReplays(log: seq<Action>, s: string)
    ensures ApplyAll(Optimized(Checked, log), s) == ApplyAll(log, s)
  {
    if log != [] {
      CompactCheckedReplays(log[0], log[1..], s);
      assert [log[0]] + log[1..] == log;
    }
  }

  /** The optimizer of text_history.py: a queue of actions still to read,
      and the output list built so far. */
  class Optimizer {
    var data: seq<Action>
    var result: seq<Action>

    constructor (actions: seq<Action>)
      ensures data == actions && result == []
    {
      data := actions;
      result := [];
    }

    /** Drains the queue into the output, keeping a window of at most two
        pending actions and merging two pending inserts whenever they merge.
        The first two actions are popped unconditionally: with fewer than two
        actions queued this fails (`ok` is false, where the source raises
        IndexError) after popping what there was. */
    method Optimize() returns (ok: bool)
      modifies this
      ensures ok == (|old(data)| >= 2)
      ensures data == []
      ensures result == old(result) + (if ok then Optimized(AsWritten, old(data)) else [])
    {
      if |data| < 2 {
        data := [];
        return false;
      }
      ok := true;
      var deq := data[..2];
      data := data[2..];
      assert deq[1..] + data == old(data)[1..];
      while data != [] || deq != []
        invariant |deq| <= 2
        invariant deq == [] ==> data == []
        invariant result + (if deq == [] then [] else Compact(AsWritten, deq[0], deq[1..] + data))
               == old(result) + Optimized(AsWritten, old(data))
        decreases 2 * |data| + |deq|
      {
        if |deq| != 2 {
          if data != [] {
            assert deq[1..] + data == [data[0]] + data[1..];
            deq := deq + [data[0]];
            data := data[1..];
          } else {
            assert Compact(AsWritten, deq[0], deq[1..] + data) == [deq[0]];
            result := result + [deq[0]];
            deq := deq[1..];
          }
        } else if deq[0].Insert? && deq[1].Insert? {
          assert (deq[1..] + data)[0] == deq[1] && (deq[1..] + data)[1..] == data;
          match Merge(AsWritten, deq[0], deq[1])
          case Some(m) =>
            deq := [m];
            assert deq[1..] + data == data;
          case None =>
            result := result + [deq[0]];
            deq := deq[1..];
            assert deq[1..] + data == data;
        } else {
          assert (deq[1..] + data)[0] == deq[1] && (deq[1..] + data)[1..] == data;
          assert Merge(AsWritten, deq[0], deq[1]).None?;
          result := result + [deq[0]];
          deq := deq[1..];
          assert deq[1..] + data == data;
        }
      }
    }

    method GetOptimized() returns (r: seq<Action>)
      ensures r == result
    {
      r := result;
    }
  }
}

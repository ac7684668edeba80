/** The three kinds of edit recorded by a text history, and how each one
    turns the text before it into the text after it. */
module Actions {
  import opened Slicing

  datatype Option<T> = None | Some(value: T)

  /** The ways an operation of the history can fail. The first four are the
      validation errors of the history; the last two are the runtime errors
      the code runs into on inputs it does not guard against. */
  datatype Error =
    | PositionError   // a position outside [0, length of the text]
    | LengthError     // a delete longer than what follows its position
    | VersionError    // a zero-span action not issued from the current version
    | RangeError      // an invalid version range in a query
    | TypeError       // arithmetic or comparison with a missing (None) value
    | IndexError      // popping from an empty queue

  datatype Result<T> = Ok(value: T) | Err(error: Error)

  function Max(a: int, b: int): int { if a < b then b else a }

  /** One recorded edit: where it applies, the version span it moves the
      history across, and its payload. `toVersion` is `None` only for an
      action a caller builds by hand and hands to the history directly. */
  datatype Action =
    | Insert(pos: int, text: string, fromVersion: int, toVersion: Option<int>)
    | Replace(pos: int, text: string, fromVersion: int, toVersion: Option<int>)
    | Delete(pos: int, length: int, fromVersion: int, toVersion: Option<int>)
  {
    /** The text after this edit, given the text before it. Positions are
        Python slice bounds; apart from the length of an insert, the
        postconditions describe the edit when the position lies inside the
        text (the only positions the history itself produces). */
    function Apply(s: string): (r: string)
      // an insert always adds exactly its text's length
      ensures Insert? ==> |r| == |s| + |text|
      // and inside the text it splices its text in and shifts the tail right
      ensures Insert? && 0 <= pos <= |s| ==>
        && r[..pos] == s[..pos]
        && r[pos..pos + |text|] == text
        && r[pos + |text|..] == s[pos..]
      // an insert past the end appends
      ensures Insert? && pos > |s| ==> r == s + text
      // a replace overwrites |text| characters, extending the text if it runs past the end
      ensures Replace? && 0 <= pos <= |s| ==>
        && |r| == Max(|s|, pos + |text|)
        && r[..pos] == s[..pos]
        && r[pos..pos + |text|] == text
        && (pos + |text| <= |s| ==> r[pos + |text|..] == s[pos + |text|..])
      // a delete that fits removes exactly `length` characters at `pos`
      ensures Delete? && 0 <= pos && 0 <= length && pos + length <= |s| ==>
        && |r| == |s| - length
        && r[..pos] == s[..pos]
        && r[pos..] == s[pos + length..]
    {
      match this
      case Insert(p, t, _, _) => Take(s, p) + t + Drop(s, p)
      case Replace(p, t, _, _) => Take(s, p) + t + Drop(s, p + |t|)
      case Delete(p, n, _, _) => Take(s, p) + Drop(s, p + n)
    }
  }

  /** The text obtained by applying the actions of `log` to `s`, first to last. */
  function ApplyAll(log: seq<Action>, s: string): string
    decreases |log|
  {
    if log == [] then s else ApplyAll(log[1..], log[0].Apply(s))
  }

  /** Replaying a log extended by one action is replaying the log and then
      applying that action. */
  lemma {:induction false} ApplyAllSnoc(log: seq<Action>, a: Action, s: string)
    ensures ApplyAll(log + [a], s) == a.Apply(ApplyAll(log, s))
    decreases |log|
  {
    if log == [] {
      assert [a][1..] == [];
    } else {
      assert (log + [a])[1..] == log[1..] + [a];
      ApplyAllSnoc(log[1..], a, log[0].Apply(s));
    }
  }

  /** Deleting the span an insert has just added restores the text. */
  lemma DeleteUndoesInsert(s: string, p: int, t: string, v1: int, v2: Option<int>, w1: int, w2: Option<int>)
    requires 0 <= p <= |s|
    ensures Delete(p, |t|, w1, w2).Apply(Insert(p, t, v1, v2).Apply(s)) == s
  {
    var mid := Insert(p, t, v1, v2).Apply(s);
    assert mid[..p] + mid[p + |t|..] == s[..p] + s[p..];
  }

  /** From any position inside the text, a replace is a delete of |text|
      characters followed by an insert of the text at the same position; an
      overwrite running past the end deletes the whole tail. */
  lemma ReplaceIsDeleteThenInsert(s: string, p: int, t: string, v1: int, v2: Option<int>)
    requires 0 <= p <= |s|
    ensures Replace(p, t, v1, v2).Apply(s) == Insert(p, t, v1, v2).Apply(Delete(p, |t|, v1, v2).Apply(s))
  {
    var cut := Delete(p, |t|, v1, v2).Apply(s);
    if p + |t| <= |s| {
      assert cut[..p] == s[..p];
      assert cut[p..] == s[p + |t|..];
    } else {
      assert cut == s[..p];
      assert Drop(s, p + |t|) == [];
      assert Take(cut, p) == s[..p] && Drop(cut, p) == [];
    }
  }

  /** Replacing a span by the characters it already holds changes nothing. */
  lemma ReplaceBySameTextIsIdentity(s: string, p: int, k: int, v1: int, v2: Option<int>)
    requires 0 <= p <= p + k <= |s|
    ensures Replace(p, s[p..p + k], v1, v2).Apply(s) == s
  {
    var r := Replace(p, s[p..p + k], v1, v2).Apply(s);
    assert r == s[..p] + s[p..p + k] + s[p + k..];
  }
}

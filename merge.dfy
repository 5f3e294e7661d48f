/** The bank merge of the mount effect, used while a test is running: loaded content
    is written into the running (shuffled) list without moving anything, and
    questions new to the file are appended. */
module Merge {
  import opened Wrappers
  import opened Questions

  /** `new Map(loaded.map(q => [q.id, q])).get(id)`: the freshly loaded question with that id;
      when several share it, the last one, since later map entries overwrite earlier
      ones. */
  function Lookup(loaded: seq<Question>, id: string): (r: Option<Question>)
    ensures r.Some? <==> HasId(loaded, id)
    ensures r.Some? ==> r.value in loaded && r.value.id == id
    ensures UniqueIds(loaded) ==> forall q :: q in loaded && q.id == id ==> r == Some(q)
    decreases |loaded|
  {
    if loaded == [] then None
    else
      var last := loaded[|loaded| - 1];
      var init := loaded[..|loaded| - 1];
      assert loaded == init + [last];
      assert Ids(loaded) == Ids(init) + [last.id];
      if last.id == id then Some(last) else Lookup(init, id)
  }

  /** `update ? { ...q, ...update } : q`. The loaded record carries every field of a
      question, so the spread leaves the loaded record (with the same id). */
  function Updated(q: Question, loaded: seq<Question>): Question {
    match Lookup(loaded, q.id)
    case Some(update) => update
    case None => q
  }

  /** `questions.map(...)`: each running question with its loaded content. */
  function UpdateContent(current: seq<Question>, loaded: seq<Question>): (r: seq<Question>)
    ensures |r| == |current|
    ensures forall i :: 0 <= i < |current| ==> r[i] == Updated(current[i], loaded)
  {
    seq(|current|, i requires 0 <= i < |current| => Updated(current[i], loaded))
  }

  /** `newQuestions.filter(q => !existingIds.has(q.id))`. */
  function BrandNew(loaded: seq<Question>, existing: seq<Question>): (r: seq<Question>)
    ensures forall q :: q in r <==> q in loaded && !HasId(existing, q.id)
  {
    if loaded == [] then []
    else (if HasId(existing, loaded[0].id) then [] else [loaded[0]]) + BrandNew(loaded[1..], existing)
  }

  /** The list a running test continues with after the bank is reloaded. */
  function MergeRunning(current: seq<Question>, loaded: seq<Question>): seq<Question> {
    var updated := UpdateContent(current, loaded);
    updated + BrandNew(loaded, updated)
  }

  /** `a` is `b` with some elements left out, the rest in their order. */
  ghost predicate Subsequence(a: seq<Question>, b: seq<Question>)
    decreases |b|
  {
    if a == [] then true
    else if b == [] then false
    else if a[0] == b[0] then Subsequence(a[1..], b[1..])
    else Subsequence(a, b[1..])
  }

  lemma {:induction false} BrandNewSubsequence(loaded: seq<Question>, existing: seq<Question>)
    ensures Subsequence(BrandNew(loaded, existing), loaded)
    decreases |loaded|
  {
    if loaded != [] {
      BrandNewSubsequence(loaded[1..], existing);
      var rest := BrandNew(loaded[1..], existing);
      if HasId(existing, loaded[0].id) {
        assert BrandNew(loaded, existing) == rest;
        SubsequenceDrop(rest, loaded);
      } else {
        assert BrandNew(loaded, existing) == [loaded[0]] + rest;
      }
    }
  }

  /** Leaving out the first element of the larger sequence keeps a subsequence one. */
  lemma {:induction false} SubsequenceDrop(a: seq<Question>, b: seq<Question>)
    requires b != [] && Subsequence(a, b[1..])
    ensures Subsequence(a, b)
    decreases |b|
  {
    if a != [] && a[0] == b[0] {
      var b' := b[1..];
      if a[0] == b'[0] {
        SubsequenceDrop(a[1..], b');
      } else {
        SubsequenceDrop(a[1..], b') by {
          SubsequenceTail(a, b');
        }
      }
    }
  }

  /** A subsequence without its first element is still a subsequence. */
  lemma {:induction false} SubsequenceTail(a: seq<Question>, b: seq<Question>)
    requires a != [] && Subsequence(a, b)
    ensures b != [] && Subsequence(a[1..], b[1..])
    decreases |b|
  {
    if a[0] != b[0] {
      SubsequenceTail(a, b[1..]);
      SubsequenceDrop(a[1..], b[1..]);
    }
  }

  /** Updating content keeps every id in its place. */
  lemma UpdateKeepsIds(current: seq<Question>, loaded: seq<Question>)
    ensures Ids(UpdateContent(current, loaded)) == Ids(current)
  {
  }

  /** The running part of the merged list: the same ids in the same places; content
      taken from the loaded question with that id where there is one, and kept where
      there is none. */
  lemma MergeKeepsPositions(current: seq<Question>, loaded: seq<Question>)
    ensures |MergeRunning(current, loaded)| >= |current|
    ensures forall i :: 0 <= i < |current| ==> MergeRunning(current, loaded)[i].id == current[i].id
    ensures forall i :: 0 <= i < |current| && !HasId(loaded, current[i].id) ==>
      MergeRunning(current, loaded)[i] == current[i]
    ensures forall i :: 0 <= i < |current| && HasId(loaded, current[i].id) ==>
      MergeRunning(current, loaded)[i] in loaded
    ensures UniqueIds(loaded) ==> forall i, q :: 0 <= i < |current| && q in loaded && q.id == current[i].id ==>
      MergeRunning(current, loaded)[i] == q
  {
  }

  /** The appended part: exactly the loaded questions whose ids the running list does
      not have, in the order of the loaded list. When the loaded ids are unique (as a
      loaded bank's are) the tail has unique ids too, which fixes it completely. */
  lemma MergeAppendsUnseen(current: seq<Question>, loaded: seq<Question>)
    ensures var tail := MergeRunning(current, loaded)[|current|..];
      && (forall q :: q in tail <==> q in loaded && !HasId(current, q.id))
      && Subsequence(tail, loaded)
      && (UniqueIds(loaded) ==> UniqueIds(tail))
  {
    var updated := UpdateContent(current, loaded);
    UpdateKeepsIds(current, loaded);
    assert MergeRunning(current, loaded)[|current|..] == BrandNew(loaded, updated);
    BrandNewSubsequence(loaded, updated);
    if UniqueIds(loaded) {
      BrandNewUnique(loaded, updated);
    }
  }

  /** Nothing is dropped: the running ids stay a prefix, and every loaded id is in
      the merged list. */
  lemma MergeDropsNothing(current: seq<Question>, loaded: seq<Question>)
    ensures Ids(MergeRunning(current, loaded))[..|current|] == Ids(current)
    ensures forall q :: q in loaded ==> HasId(MergeRunning(current, loaded), q.id)
  {
    var updated := UpdateContent(current, loaded);
    var tail := BrandNew(loaded, updated);
    UpdateKeepsIds(current, loaded);
    IdsAppend(updated, tail);
    forall q | q in loaded ensures HasId(MergeRunning(current, loaded), q.id) {
      LoadedIdKept(updated, tail, q);
    }
  }

  lemma LoadedIdKept(updated: seq<Question>, tail: seq<Question>, q: Question)
    requires HasId(updated, q.id) || q in tail
    ensures HasId(updated + tail, q.id)
  {
    IdsAppend(updated, tail);
    if !HasId(updated, q.id) {
      var j :| 0 <= j < |tail| && tail[j] == q;
      assert Ids(updated + tail)[|updated| + j] == q.id;
    }
  }

  /** A reload that yields no questions changes nothing. */
  lemma MergeEmptyFresh(current: seq<Question>)
    ensures MergeRunning(current, []) == current
  {
  }

  /** Ids stay unique through a merge. */
  lemma MergeKeepsUnique(current: seq<Question>, loaded: seq<Question>)
    requires UniqueIds(current) && UniqueIds(loaded)
    ensures UniqueIds(MergeRunning(current, loaded))
  {
    var updated := UpdateContent(current, loaded);
    var tail := BrandNew(loaded, updated);
    UpdateKeepsIds(current, loaded);
    assert UniqueIds(updated) by {
      forall i, j | 0 <= i < j < |updated| ensures updated[i].id != updated[j].id {
        assert Ids(updated)[i] == Ids(current)[i] && Ids(updated)[j] == Ids(current)[j];
      }
    }
    BrandNewUnique(loaded, updated);
    forall j | 0 <= j < |tail| ensures !HasId(updated, tail[j].id) {
      assert tail[j] in tail;
    }
    UniqueConcat(updated, tail);
  }

  /** Two lists with unique ids and no id in common join into one with unique ids. */
  lemma UniqueConcat(a: seq<Question>, b: seq<Question>)
    requires UniqueIds(a) && UniqueIds(b)
    requires forall j :: 0 <= j < |b| ==> !HasId(a, b[j].id)
    ensures UniqueIds(a + b)
  {
    var r := a + b;
    forall i, j | 0 <= i < j < |r| ensures r[i].id != r[j].id {
      if i < |a| && j >= |a| {
        assert r[j] == b[j - |a|];
        assert Ids(a)[i] == r[i].id;
      } else if j >= |a| {
        assert r[i] == b[i - |a|] && r[j] == b[j - |a|];
      }
    }
  }

  lemma {:induction false} BrandNewUnique(loaded: seq<Question>, existing: seq<Question>)
    requires UniqueIds(loaded)
    ensures UniqueIds(BrandNew(loaded, existing))
    decreases |loaded|
  {
    if loaded != [] {
      BrandNewUnique(loaded[1..], existing);
      var rest := BrandNew(loaded[1..], existing);
      if !HasId(existing, loaded[0].id) {
        forall q | q in rest ensures q.id != loaded[0].id {
          var j :| 0 <= j < |loaded[1..]| && loaded[1..][j] == q;
          assert loaded[j + 1] == q;
        }
      }
    }
  }

  /** Reloading the same bank a second time leaves the running list as the first
      reload left it. */
  lemma MergeIdempotent(current: seq<Question>, loaded: seq<Question>)
    requires UniqueIds(loaded)
    ensures MergeRunning(MergeRunning(current, loaded), loaded) == MergeRunning(current, loaded)
  {
    var m := MergeRunning(current, loaded);
    MergeDropsNothing(current, loaded);
    MergeKeepsPositions(current, loaded);
    var u := UpdateContent(m, loaded);
    forall i | 0 <= i < |m| ensures u[i] == m[i] {
      if HasId(loaded, m[i].id) {
        var q := Lookup(loaded, m[i].id).value;
        if i < |current| {
          assert m[i] in loaded;
        } else {
          assert m[i] in m[|current|..];
          MergeAppendsUnseen(current, loaded);
        }
      }
    }
    assert u == m;
    forall q | q in loaded ensures HasId(u, q.id) {}
    BrandNewNone(loaded, u);
  }

  /** When every loaded id is already present, nothing is brand new. */
  lemma {:induction false} BrandNewNone(loaded: seq<Question>, existing: seq<Question>)
    requires forall q :: q in loaded ==> HasId(existing, q.id)
    ensures BrandNew(loaded, existing) == []
  {
    if loaded != [] {
      assert loaded[0] in loaded;
      BrandNewNone(loaded[1..], existing);
    }
  }
}

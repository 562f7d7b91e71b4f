/**
  What the replacer's operations promise, proved about the state functions of
  ReplacerState: the well-formedness every operation keeps, the stronger
  invariant the corrected operations keep, and the behaviour of each operation.
*/
module ReplacerLemmas {
  import opened Wrappers
  import opened ReplacerState

  // ---------------------------------------------------------------------------
  // Preservation of Wf
  // ---------------------------------------------------------------------------

  /** Counting an access to an already counted frame keeps the state well formed. */
  lemma CountKeepsWf(s: State, f: int, k: nat)
    requires Wf(s) && f in s.counts
    ensures Wf(Count(s, f, k))
  {
    var r := Count(s, f, k);
    assert EvictableFrames(r) == EvictableFrames(s);
    var c := s.counts[f] + 1;
    if c >= k {
      var b := Erase(s.buffer, f);
      assert NoDup([f] + b) by {
        forall i, j | 0 <= i < j < |[f] + b| ensures ([f] + b)[i] != ([f] + b)[j] {
          if i == 0 {
            assert ([f] + b)[j] in b;
          } else {
            assert ([f] + b)[i] == b[i - 1] && ([f] + b)[j] == b[j - 1];
          }
        }
      }
    }
  }

  /** Admitting a frame not yet counted and counting its first access keeps the state well formed. */
  lemma AdmitKeepsWf(s: State, f: int, k: nat)
    requires Wf(s) && f !in s.counts
    ensures Wf(Count(Admit(s, f), f, k))
  {
    var a := Admit(s, f);
    var r := Count(a, f, k);
    assert f !in s.history && f !in s.buffer && f !in s.evictable;
    assert EvictableFrames(a) == EvictableFrames(s);
    assert EvictableFrames(r) == EvictableFrames(s);
    assert NoDup(a.history) by {
      forall i, j | 0 <= i < j < |a.history| ensures a.history[i] != a.history[j] {
        if i == 0 {
          assert a.history[j] in s.history;
        } else {
          assert a.history[i] == s.history[i - 1] && a.history[j] == s.history[j - 1];
        }
      }
    }
    if 1 >= k {
      var b := Erase(a.buffer, f);
      assert NoDup([f] + b) by {
        forall i, j | 0 <= i < j < |[f] + b| ensures ([f] + b)[i] != ([f] + b)[j] {
          if i == 0 {
            assert ([f] + b)[j] in b;
          } else {
            assert ([f] + b)[i] == b[i - 1] && ([f] + b)[j] == b[j - 1];
          }
        }
      }
    }
  }

  /** The scans keep the placement of frames. */
  lemma EvictOldestKeepsPlaced(s: State, k: nat)
    requires Wf(s) && Placed(s, k)
    ensures Placed(EvictOldestStep(s).0, k)
  {
  }

  lemma AccessKeepsWf(s: State, f: int, cap: nat, k: nat)
    requires Wf(s) && Placed(s, k)
    ensures Wf(AccessStep(s, f, cap, k)) && Placed(AccessStep(s, f, cap, k), k)
  {
    var base := s;
    if f !in s.counts && IsFull(s, cap) {
      EvictOldestKeepsPlaced(s, k);
      base := EvictOldestStep(s).0;
    }
    if f !in s.counts {
      if IsFull(s, cap) {
        var (s1, v) := EvictOldestStep(s);
        if v.Some? {
          assert f !in s1.counts;
          AdmitKeepsWf(s1, f, k);
        }
      } else {
        AdmitKeepsWf(s, f, k);
      }
    } else {
      CountKeepsWf(s, f, k);
    }
    var r := AccessStep(s, f, cap, k);
    if r != s {
      forall g | g in r.history ensures g in r.counts && r.counts[g] < k {
        if g != f {
          assert g in base.history;
        }
      }
      forall g | g in r.buffer ensures g in r.counts && r.counts[g] >= k {
        if g != f {
          assert g in base.buffer;
        }
      }
    }
  }

  lemma ToggleKeepsWf(s: State, f: int, flag: bool)
    requires Wf(s) && f in s.counts
    ensures Wf(Toggle(s, f, flag))
  {
    var r := Toggle(s, f, flag);
    if IsEvictable(s.evictable, f) && !flag {
      assert EvictableFrames(r) == EvictableFrames(s) - {f};
      MemberCard(EvictableFrames(s), f);
    } else if !IsEvictable(s.evictable, f) && flag {
      assert EvictableFrames(r) == EvictableFrames(s) + {f};
      assert f !in EvictableFrames(s);
    }
  }

  lemma SetEvictableKeepsWf(s: State, f: int, flag: bool, k: nat)
    requires Wf(s) && Placed(s, k)
    ensures Wf(SetEvictableStep(s, f, flag)) && Placed(SetEvictableStep(s, f, flag), k)
    ensures Wf(SetEvictableAsWrittenStep(s, f, flag)) && Placed(SetEvictableAsWrittenStep(s, f, flag), k)
  {
    if f in s.counts {
      ToggleKeepsWf(s, f, flag);
    } else {
      assert EvictableFrames(SetEvictableAsWrittenStep(s, f, flag)) == EvictableFrames(s);
    }
  }

  lemma RemoveKeepsWf(s: State, f: int, k: nat)
    requires Wf(s) && Placed(s, k)
    ensures Wf(RemoveStep(s, f, k).0) && Placed(RemoveStep(s, f, k).0, k)
  {
    if f in s.counts && s.counts[f] > 0 && IsEvictable(s.evictable, f) {
      if s.counts[f] < k {
        assert f !in s.buffer;
      } else {
        assert f !in s.history;
      }
    }
  }

  // ---------------------------------------------------------------------------
  // Preservation of Inv by the corrected operations
  // ---------------------------------------------------------------------------

  /** Dropping the frame `f` found by a scan keeps the invariant. */
  lemma EvictOldestKeepsInv(s: State, k: nat)
    requires Inv(s, k)
    ensures Inv(EvictOldestStep(s).0, k)
  {
    var (r, v) := EvictOldestStep(s);
    if v.Some? {
      var f := v.value;
      forall g | g in r.counts ensures g in r.history <==> r.counts[g] < k {
        assert g != f && g in s.counts;
      }
      forall g | g in r.counts ensures g in r.buffer <==> r.counts[g] >= k {
        assert g != f && g in s.counts;
      }
    }
  }

  /** Counting an access to a tracked frame keeps the invariant. */
  lemma CountKeepsInv(s: State, f: int, k: nat)
    requires Inv(s, k) && f in s.counts
    ensures Inv(Count(s, f, k), k)
  {
    CountKeepsWf(s, f, k);
    var r := Count(s, f, k);
    forall g | g in r.counts && g != f
      ensures g in r.history <==> r.counts[g] < k
      ensures g in r.buffer <==> r.counts[g] >= k
    {
      assert g in s.counts && r.counts[g] == s.counts[g];
    }
  }

  /** Admitting a frame not yet counted, and counting its first access, keeps the invariant. */
  lemma AdmitKeepsInv(s: State, f: int, k: nat)
    requires Inv(s, k) && f !in s.counts
    ensures Inv(Count(Admit(s, f), f, k), k)
  {
    AdmitKeepsWf(s, f, k);
    var r := Count(Admit(s, f), f, k);
    forall g | g in r.counts && g != f
      ensures g in r.evictable && r.counts[g] >= 1
      ensures g in r.history <==> r.counts[g] < k
      ensures g in r.buffer <==> r.counts[g] >= k
    {
      assert g in s.counts && r.counts[g] == s.counts[g];
    }
  }

  lemma AccessKeepsInv(s: State, f: int, cap: nat, k: nat)
    requires Inv(s, k)
    ensures Inv(AccessStep(s, f, cap, k), k)
  {
    if f !in s.counts {
      if IsFull(s, cap) {
        EvictOldestKeepsInv(s, k);
        var (s1, v) := EvictOldestStep(s);
        if v.Some? {
          assert f !in s1.counts;
          AdmitKeepsInv(s1, f, k);
        }
      } else {
        AdmitKeepsInv(s, f, k);
      }
    } else {
      CountKeepsInv(s, f, k);
    }
  }

  lemma SetEvictableKeepsInv(s: State, f: int, flag: bool, k: nat)
    requires Inv(s, k)
    ensures Inv(SetEvictableStep(s, f, flag), k)
  {
    SetEvictableKeepsWf(s, f, flag, k);
  }

  lemma RemoveKeepsInv(s: State, f: int, k: nat)
    requires Inv(s, k)
    ensures Inv(RemoveStep(s, f, k).0, k)
  {
    var r := RemoveStep(s, f, k).0;
    forall g | g in r.counts
      ensures g in r.history <==> r.counts[g] < k
      ensures g in r.buffer <==> r.counts[g] >= k
    {
      assert g in s.counts;
    }
  }

  // ---------------------------------------------------------------------------
  // Evict
  // ---------------------------------------------------------------------------

  /**
    Evict returns nothing and changes nothing when no frame is evictable; otherwise
    it evicts the oldest evictable cold frame if there is one, and only otherwise the
    oldest evictable hot frame.  The evicted frame was evictable, and afterwards is
    in neither list and neither map, with `size` one less.
  */
  lemma EvictChoice(s: State)
    requires Wf(s)
    ensures s.size == 0 ==> EvictStep(s) == (s, None)
    ensures s.size > 0 && LastEvictable(s.history, s.evictable) >= 0 ==>
              EvictStep(s).1 == Some(s.history[LastEvictable(s.history, s.evictable)])
    ensures s.size > 0 && LastEvictable(s.history, s.evictable) < 0 && LastEvictable(s.buffer, s.evictable) >= 0 ==>
              EvictStep(s).1 == Some(s.buffer[LastEvictable(s.buffer, s.evictable)])
    ensures EvictStep(s).1.None? ==> EvictStep(s).0 == s
    ensures forall f | EvictStep(s).1 == Some(f) ::
              && IsEvictable(s.evictable, f)
              && f !in EvictStep(s).0.history && f !in EvictStep(s).0.buffer
              && f !in EvictStep(s).0.counts && f !in EvictStep(s).0.evictable
              && EvictStep(s).0.size == s.size - 1
  {
    var (r, v) := EvictStep(s);
    if v.Some? {
      var f := v.value;
      if LastEvictable(s.history, s.evictable) >= 0 {
        assert f in s.history;
      } else {
        assert f in s.buffer;
      }
    }
  }

  /** Under the invariant every evictable frame is listed, so the scans see it. */
  lemma EvictableListed(s: State, k: nat)
    requires Inv(s, k)
    ensures s.size > 0 ==> LastEvictable(s.history, s.evictable) >= 0 || LastEvictable(s.buffer, s.evictable) >= 0
  {
    if LastEvictable(s.history, s.evictable) < 0 && LastEvictable(s.buffer, s.evictable) < 0 {
      forall f | f in s.evictable ensures !s.evictable[f] {
        assert f in s.counts;
        if f in s.history {
          var j :| 0 <= j < |s.history| && s.history[j] == f;
        } else {
          var j :| 0 <= j < |s.buffer| && s.buffer[j] == f;
        }
      }
      assert EvictableFrames(s) == {};
    }
  }

  /** With the invariant, a positive `size` means Evict finds a frame. */
  lemma EvictSucceeds(s: State, k: nat)
    requires Inv(s, k) && s.size > 0
    ensures EvictStep(s).1.Some?
    ensures EvictStep(s).0.size == s.size - 1
  {
    EvictableListed(s, k);
    EvictChoice(s);
  }

  // ---------------------------------------------------------------------------
  // RecordAccess
  // ---------------------------------------------------------------------------

  /** An unseen frame arriving at a full replacer with nothing evictable changes nothing. */
  lemma AccessDropped(s: State, f: int, cap: nat, k: nat)
    requires Wf(s) && f !in s.counts && IsFull(s, cap)
    requires forall j | 0 <= j < |s.history| :: !IsEvictable(s.evictable, s.history[j])
    requires forall j | 0 <= j < |s.buffer| :: !IsEvictable(s.evictable, s.buffer[j])
    ensures AccessStep(s, f, cap, k) == s
  {
    assert LastEvictable(s.history, s.evictable) < 0;
    assert LastEvictable(s.buffer, s.evictable) < 0;
  }

  /**
    Access counts only grow: an access adds one to the count of `f` (an unseen frame
    starts at one, and in a full replacer either starts at one after an eviction or
    the access is dropped), keeps every other surviving count, and admits no other
    frame.
  */
  lemma AccessCounts(s: State, f: int, cap: nat, k: nat)
    requires Wf(s)
    ensures var r := AccessStep(s, f, cap, k);
              && (f in s.counts ==> r.counts == s.counts[f := s.counts[f] + 1])
              && (f !in s.counts && !IsFull(s, cap) ==> r.counts == s.counts[f := 1])
              && (f !in s.counts && IsFull(s, cap) ==> r == s || (f in r.counts && r.counts[f] == 1))
              && (forall g | g in r.counts && g != f :: g in s.counts && r.counts[g] == s.counts[g])
              && (forall g | g in r.counts && g in s.counts :: r.counts[g] >= s.counts[g])
  {
    var r := AccessStep(s, f, cap, k);
    if f in s.counts {
      assert r == Count(s, f, k);
    } else if !IsFull(s, cap) {
      assert r == Count(Admit(s, f), f, k);
    } else {
      var (s1, v) := EvictOldestStep(s);
      if v.Some? {
        assert forall g | g in s1.counts :: g in s.counts && s1.counts[g] == s.counts[g];
        assert r == Count(Admit(s1, f), f, k);
        assert r.counts == s1.counts[f := 1];
      }
    }
  }

  /**
    Once the count of `f` reaches `k`, `f` is the most recent frame of the hot list
    and is not in the cold list; below `k` it was put, or stays, in the cold list.
  */
  lemma AccessHot(s: State, f: int, cap: nat, k: nat)
    requires Wf(s)
    ensures var r := AccessStep(s, f, cap, k);
              f in r.counts && r.counts[f] >= k ==> |r.buffer| > 0 && r.buffer[0] == f && f !in r.history
    ensures var r := AccessStep(s, f, cap, k);
              Inv(s, k) && f in r.counts && r.counts[f] < k ==> f in r.history && f !in r.buffer
  {
    var r := AccessStep(s, f, cap, k);
    if Inv(s, k) {
      AccessKeepsInv(s, f, cap, k);
    }
    if f in r.counts && r.counts[f] >= k {
      if f in s.counts {
        assert r == Count(s, f, k);
      }
    }
  }

  // ---------------------------------------------------------------------------
  // SetEvictable and Remove
  // ---------------------------------------------------------------------------

  /**
    SetEvictable leaves a frame with no recorded access alone; otherwise the frame's
    flag becomes `flag` and `size` moves by one exactly when the flag changes.
    Repeating the call changes nothing more.
  */
  lemma SetEvictableSpec(s: State, f: int, flag: bool)
    requires Wf(s)
    ensures f !in s.counts || s.counts[f] == 0 ==> SetEvictableStep(s, f, flag) == s
    ensures f in s.counts && s.counts[f] > 0 ==>
              && IsEvictable(SetEvictableStep(s, f, flag).evictable, f) == flag
              && SetEvictableStep(s, f, flag).size ==
                   if flag == IsEvictable(s.evictable, f) then s.size
                   else if flag then s.size + 1 else s.size - 1
    ensures SetEvictableStep(s, f, flag).counts == s.counts
    ensures SetEvictableStep(s, f, flag).history == s.history && SetEvictableStep(s, f, flag).buffer == s.buffer
    ensures && Wf(SetEvictableStep(s, f, flag))
            && SetEvictableStep(SetEvictableStep(s, f, flag), f, flag) == SetEvictableStep(s, f, flag)
  {
    if f in s.counts {
      ToggleKeepsWf(s, f, flag);
    }
  }

  /**
    Remove: no change for an uncounted or zero-count frame; an error with no change
    for a counted frame that is not evictable; otherwise the frame leaves both lists
    and both maps and `size` drops by one.
  */
  lemma RemoveSpec(s: State, f: int, k: nat)
    requires Wf(s) && Placed(s, k)
    ensures f !in s.counts || s.counts[f] == 0 ==> RemoveStep(s, f, k) == (s, Ok)
    ensures f in s.counts && s.counts[f] > 0 && !IsEvictable(s.evictable, f) ==> RemoveStep(s, f, k) == (s, InvalidOperation)
    ensures f in s.counts && s.counts[f] > 0 && IsEvictable(s.evictable, f) ==>
              var r := RemoveStep(s, f, k).0;
              && RemoveStep(s, f, k).1 == Ok
              && f !in r.history && f !in r.buffer && f !in r.counts && f !in r.evictable
              && r.size == s.size - 1
              && r.counts == s.counts - {f} && r.evictable == s.evictable - {f}
  {
    if f in s.counts && s.counts[f] > 0 && IsEvictable(s.evictable, f) {
      if s.counts[f] < k {
        assert f !in s.buffer;
      } else {
        assert f !in s.history;
      }
    }
  }

  // ---------------------------------------------------------------------------
  // Sizes
  // ---------------------------------------------------------------------------

  lemma {:induction false} NoDupCard(s: seq<int>)
    requires NoDup(s)
    ensures |(set x | x in s)| == |s|
  {
    if |s| > 0 {
      var rest := s[1..];
      assert NoDup(rest) by {
        forall i, j | 0 <= i < j < |rest| ensures rest[i] != rest[j] {
          assert rest[i] == s[i + 1] && rest[j] == s[j + 1];
        }
      }
      NoDupCard(rest);
      assert s[0] !in rest by {
        forall j | 0 <= j < |rest| ensures rest[j] != s[0] {
          assert rest[j] == s[j + 1];
        }
      }
      assert (set x | x in s) == {s[0]} + (set x | x in rest) by {
        assert s == [s[0]] + rest;
      }
    }
  }

  /**
    Under the invariant, the cold list holds exactly the frames seen fewer than `k`
    times and the hot list exactly the others, each once.
  */
  lemma ListSizes(s: State, k: nat)
    ensures Inv(s, k) ==> |s.history| == |ColdFrames(s, k)|
    ensures Inv(s, k) ==> |s.buffer| == |HotFrames(s, k)|
  {
    if Inv(s, k) {
      forall x ensures x in s.history <==> x in ColdFrames(s, k) {
        if x in s.history {
          assert x in s.counts;
        }
      }
      forall x ensures x in s.buffer <==> x in HotFrames(s, k) {
        if x in s.buffer {
          assert x in s.counts;
        }
      }
      assert (set x | x in s.history) == ColdFrames(s, k);
      assert (set x | x in s.buffer) == HotFrames(s, k);
      NoDupCard(s.history);
      NoDupCard(s.buffer);
    }
  }

  /** The freshly constructed replacer satisfies the invariant. */
  lemma EmptyInv(k: nat)
    ensures Inv(Empty(), k) && Empty().size == 0
  {
    assert EvictableFrames(Empty()) == {};
  }

  // ---------------------------------------------------------------------------
  // The zero count inserted by SetEvictable
  // ---------------------------------------------------------------------------

  /**
    With `k = 2`, SetEvictable(1, false) on a fresh replacer inserts a zero count
    for frame 1; RecordAccess(1) then takes the path of a frame already seen and
    puts it in neither list; SetEvictable(1, true) counts it as evictable.  Size()
    is 1, yet Evict finds nothing.
  */
  lemma OrphanedFrameAsWritten()
    ensures var s1 := State([], [], map[1 := 0], map[], 0);
            var s2 := State([], [], map[1 := 1], map[], 0);
            var s3 := State([], [], map[1 := 1], map[1 := true], 1);
            && Wf(Empty()) && SetEvictableAsWrittenStep(Empty(), 1, false) == s1
            && Wf(s1) && AccessStep(s1, 1, 2, 2) == s2
            && Wf(s2) && SetEvictableAsWrittenStep(s2, 1, true) == s3
            && Wf(s3) && s3.size == 1 && 1 !in s3.history && 1 !in s3.buffer
            && EvictStep(s3) == (s3, None)
  {
    EmptyInv(2);
    var s1 := State([], [], map[1 := 0], map[], 0);
    assert EvictableFrames(s1) == {};
    var s2 := State([], [], map[1 := 1], map[], 0);
    assert EvictableFrames(s2) == {};
    var s3 := State([], [], map[1 := 1], map[1 := true], 1);
    assert EvictableFrames(s3) == {1};
  }

  /** The same calls with the corrected SetEvictable: frame 1 is admitted, and Evict returns it. */
  lemma OrphanedFrameCorrected()
    ensures var s2 := State([1], [], map[1 := 1], map[1 := false], 0);
            var s3 := State([1], [], map[1 := 1], map[1 := true], 1);
            && Wf(Empty()) && SetEvictableStep(Empty(), 1, false) == Empty()
            && AccessStep(Empty(), 1, 2, 2) == s2
            && Wf(s2) && SetEvictableStep(s2, 1, true) == s3
            && Wf(s3) && EvictStep(s3).1 == Some(1) && EvictStep(s3).0.size == 0
  {
    EmptyInv(2);
    var a := State([1], [], map[], map[1 := false], 0);
    assert Admit(Empty(), 1) == a;
    var s2 := State([1], [], map[1 := 1], map[1 := false], 0);
    assert Count(a, 1, 2) == s2;
    assert EvictableFrames(s2) == {};
    var s3 := State([1], [], map[1 := 1], map[1 := true], 1);
    assert EvictableFrames(s3) == {1};
    assert LastEvictable(s3.history, s3.evictable) == 0;
    assert Erase([1], 1) == [];
  }
}

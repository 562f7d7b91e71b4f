/**
  The LRU-K replacer as an object whose methods update its fields in place.
  Each method is proved to move the fields exactly as the matching step function
  of ReplacerState moves its `View()`, so the lemmas of ReplacerLemmas describe
  what the methods do.
*/
module LRUKReplacer {
  import opened Wrappers
  import opened ReplacerState
  import ReplacerLemmas

  class LRUKReplacer {
    /** `replacer_size_`, the number of frames the replacer may track, and `k_`. */
    const replacerSize: nat
    const k: nat

    /** The cold and hot lists, most recent frame first. */
    var historyList: seq<int>
    var bufferList: seq<int>
    var historyCnt: map<int, nat>
    var evictable: map<int, bool>
    var currSize: nat

    function View(): State
      reads this
    {
      State(historyList, bufferList, historyCnt, evictable, currSize)
    }

    /** What every operation keeps, as the source writes them. */
    predicate Valid()
      reads this
    {
      Wf(View()) && Placed(View(), k)
    }

    constructor(numFrames: nat, k: nat)
      ensures replacerSize == numFrames && this.k == k
      ensures View() == Empty()
      ensures Valid() && Inv(View(), k)
    {
      replacerSize := numFrames;
      this.k := k;
      historyList := [];
      bufferList := [];
      historyCnt := map[];
      evictable := map[];
      currSize := 0;
      new;
      ReplacerLemmas.EmptyInv(k);
    }

    /**
      The reverse-iterator scan: walks `list` from its oldest end and stops at the
      first evictable frame, giving its index, or -1 when there is none.
    */
    method FindOldest(list: seq<int>) returns (i: int)
      ensures i == LastEvictable(list, evictable)
    {
      i := |list| - 1;
      assert list[..|list|] == list;
      while i >= 0 && !IsEvictable(evictable, list[i])
        invariant -1 <= i < |list|
        invariant LastEvictable(list, evictable) == LastEvictable(list[..i + 1], evictable)
        decreases i + 1
      {
        assert list[..i + 1][..i] == list[..i];
        i := i - 1;
      }
      if i >= 0 {
        assert list[..i + 1][i] == list[i];
      }
    }

    /** Dropping an evictable frame from both maps, with `curr_size_` following. */
    method ForgetFrame(f: int)
      requires Wf(View()) && IsEvictable(evictable, f)
      modifies this
      ensures View() == Forget(old(View()), f)
    {
      assert f in EvictableFrames(View());
      MemberCard(EvictableFrames(View()), f);
      evictable := evictable - {f};
      historyCnt := historyCnt - {f};
      currSize := currSize - 1;
    }

    /** The scans shared by Evict and RecordAccess, and the removal of the frame they find. */
    method EvictOldest() returns (victim: Option<int>)
      requires Valid()
      modifies this
      ensures (View(), victim) == EvictOldestStep(old(View()))
    {
      var i := FindOldest(historyList);
      if i >= 0 {
        var f := historyList[i];
        victim := Some(f);
        ForgetFrame(f);
        historyList := Erase(historyList, f);
      } else {
        var j := FindOldest(bufferList);
        if j >= 0 {
          var f := bufferList[j];
          victim := Some(f);
          ForgetFrame(f);
          bufferList := Erase(bufferList, f);
        } else {
          victim := None;
        }
      }
    }

    /** Evict: the frame evicted, or None (the source's `false`). */
    method Evict() returns (victim: Option<int>)
      requires Valid()
      modifies this
      ensures (View(), victim) == EvictStep(old(View()))
      ensures Valid()
      ensures old(Inv(View(), k)) ==> Inv(View(), k)
    {
      ReplacerLemmas.EvictOldestKeepsPlaced(View(), k);
      if Inv(View(), k) {
        ReplacerLemmas.EvictOldestKeepsInv(View(), k);
      }
      if currSize == 0 {
        return None;
      }
      victim := EvictOldest();
    }

    method RecordAccess(frameId: int)
      requires frameId <= replacerSize
      requires Valid()
      modifies this
      ensures View() == AccessStep(old(View()), frameId, replacerSize, k)
      ensures Valid()
      ensures old(Inv(View(), k)) ==> Inv(View(), k)
    {
      ghost var s := View();
      ReplacerLemmas.AccessKeepsWf(s, frameId, replacerSize, k);
      if Inv(s, k) {
        ReplacerLemmas.AccessKeepsInv(s, frameId, replacerSize, k);
      }
      if frameId !in historyCnt {
        if |historyCnt| == replacerSize {
          var v := EvictOldest();
          if v.None? {
            return;
          }
        }
        AdmitFrame(frameId);
      }
      CountAccess(frameId);
    }

    /** InsertHistory and `evictable_[frame_id] = false`. */
    method AdmitFrame(frameId: int)
      modifies this
      ensures View() == Admit(old(View()), frameId)
    {
      historyList := [frameId] + historyList;
      evictable := evictable[frameId := false];
    }

    /** `++history_cnt_[frame_id]`, and the move to the hot list once the count reaches `k`. */
    method CountAccess(frameId: int)
      modifies this
      ensures View() == Count(old(View()), frameId, k)
    {
      var c := (if frameId in historyCnt then historyCnt[frameId] else 0) + 1;
      historyCnt := historyCnt[frameId := c];
      if c >= k {
        historyList := Erase(historyList, frameId);
        bufferList := [frameId] + Erase(bufferList, frameId);
      }
    }

    /** The flag update shared by both versions of SetEvictable. */
    method Toggle(frameId: int, setEvictable: bool)
      requires Valid() && frameId in historyCnt
      modifies this
      ensures View() == ReplacerState.Toggle(old(View()), frameId, setEvictable)
    {
      if IsEvictable(evictable, frameId) && !setEvictable {
        assert frameId in EvictableFrames(View());
        MemberCard(EvictableFrames(View()), frameId);
        currSize := currSize - 1;
        evictable := evictable[frameId := false];
      } else if !IsEvictable(evictable, frameId) && setEvictable {
        currSize := currSize + 1;
        evictable := evictable[frameId := true];
      }
    }

    /** SetEvictable, with a frame never seen left alone (no zero count inserted). */
    method SetEvictable(frameId: int, setEvictable: bool)
      requires frameId <= replacerSize
      requires Valid()
      modifies this
      ensures View() == SetEvictableStep(old(View()), frameId, setEvictable)
      ensures Valid()
      ensures old(Inv(View(), k)) ==> Inv(View(), k)
    {
      ReplacerLemmas.SetEvictableKeepsWf(View(), frameId, setEvictable, k);
      if Inv(View(), k) {
        ReplacerLemmas.SetEvictableKeepsInv(View(), frameId, setEvictable, k);
      }
      if frameId !in historyCnt || historyCnt[frameId] == 0 {
        return;
      }
      Toggle(frameId, setEvictable);
    }

    /** SetEvictable as the source writes it: `history_cnt_[frame_id]` inserts a zero count. */
    method SetEvictableAsWritten(frameId: int, setEvictable: bool)
      requires frameId <= replacerSize
      requires Valid()
      modifies this
      ensures View() == SetEvictableAsWrittenStep(old(View()), frameId, setEvictable)
      ensures Valid()
    {
      ReplacerLemmas.SetEvictableKeepsWf(View(), frameId, setEvictable, k);
      if frameId !in historyCnt {
        historyCnt := historyCnt[frameId := 0];
        return;
      }
      if historyCnt[frameId] == 0 {
        return;
      }
      Toggle(frameId, setEvictable);
    }

    /** Remove: `InvalidOperation` stands for the exception thrown for a pinned frame. */
    method Remove(frameId: int) returns (o: Outcome)
      requires frameId <= replacerSize
      requires Valid()
      modifies this
      ensures (View(), o) == RemoveStep(old(View()), frameId, k)
      ensures Valid()
      ensures old(Inv(View(), k)) ==> Inv(View(), k)
    {
      ghost var s := View();
      ReplacerLemmas.RemoveKeepsWf(s, frameId, k);
      if Inv(s, k) {
        ReplacerLemmas.RemoveKeepsInv(s, frameId, k);
      }
      if frameId !in historyCnt {
        return Ok;
      }
      var cnt := historyCnt[frameId];
      if cnt == 0 {
        return Ok;
      }
      if !IsEvictable(evictable, frameId) {
        return InvalidOperation;
      }
      if cnt < k {
        historyList := Erase(historyList, frameId);
      } else {
        bufferList := Erase(bufferList, frameId);
      }
      ForgetFrame(frameId);
      o := Ok;
    }

    /** Size: the number of evictable frames. */
    function Size(): (r: nat)
      reads this
      requires Valid()
      ensures r == |EvictableFrames(View())|
    {
      currSize
    }

    /** BufferSize: under the invariant, the number of frames seen at least `k` times. */
    function BufferSize(): (r: nat)
      reads this
      ensures r == |bufferList|
      ensures Inv(View(), k) ==> r == |HotFrames(View(), k)|
    {
      ReplacerLemmas.ListSizes(View(), k);
      |bufferList|
    }

    /** HistorySize: under the invariant, the number of frames seen fewer than `k` times. */
    function HistorySize(): (r: nat)
      reads this
      ensures r == |historyList|
      ensures Inv(View(), k) ==> r == |ColdFrames(View(), k)|
    {
      ReplacerLemmas.ListSizes(View(), k);
      |historyList|
    }
  }
}

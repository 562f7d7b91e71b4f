/**
  The LRU-K replacer's state as a value, and one function per operation giving the
  state after it.  `history` is the cold list `history_list_` and `buffer` the hot
  list `buffer_list_`, both with the most recent frame at index 0, so the scans of
  the source that start at `rbegin()` start here at the last index.  `counts` is
  `history_cnt_`, `evictable` is `evictable_` and `size` is `curr_size_`.

  A frame missing from `evictable` reads as not evictable, which is what
  `evictable_[f]` returns for it.
*/
module ReplacerState {
  import opened Wrappers

  datatype State = State(history: seq<int>, buffer: seq<int>, counts: map<int, nat>, evictable: map<int, bool>, size: nat)

  /** The state of a freshly constructed replacer. */
  function Empty(): State
  {
    State([], [], map[], map[], 0)
  }

  predicate NoDup(s: seq<int>)
  {
    forall i, j | 0 <= i < j < |s| :: s[i] != s[j]
  }

  predicate IsEvictable(ev: map<int, bool>, f: int)
  {
    f in ev && ev[f]
  }

  /** The frames currently marked evictable. */
  function EvictableFrames(s: State): set<int>
  {
    set f | f in s.evictable && s.evictable[f]
  }

  /** Frames seen fewer than `k` times, and at least `k` times. */
  function ColdFrames(s: State, k: nat): set<int>
  {
    set f | f in s.counts && s.counts[f] < k
  }

  function HotFrames(s: State, k: nat): set<int>
  {
    set f | f in s.counts && s.counts[f] >= k
  }

  /**
    What every operation keeps, including the ones as the source writes them:
    each list is repetition-free, no frame is in both, every listed or flagged
    frame is counted, and `size` is the number of evictable frames.
  */
  predicate Wf(s: State)
  {
    && NoDup(s.history) && NoDup(s.buffer)
    && (forall f | f in s.history :: f !in s.buffer)
    && (forall f | f in s.history :: f in s.counts)
    && (forall f | f in s.buffer :: f in s.counts)
    && (forall f | f in s.evictable :: f in s.counts)
    && s.size == |EvictableFrames(s)|
  }

  /**
    What places a frame in a list, kept by every operation including the ones as
    the source writes them: the cold list holds only frames seen fewer than `k`
    times and the hot list only frames seen at least `k` times.
  */
  predicate Placed(s: State, k: nat)
  {
    && (forall f | f in s.history :: f in s.counts && s.counts[f] < k)
    && (forall f | f in s.buffer :: f in s.counts && s.counts[f] >= k)
  }

  /**
    The invariant of the replacer with the corrected SetEvictable: every counted
    frame has been accessed, has an evictable flag, and sits in the cold list
    while its count is below `k` and in the hot list from then on.
  */
  predicate Inv(s: State, k: nat)
  {
    && Wf(s)
    && (forall f | f in s.counts :: f in s.evictable && s.counts[f] >= 1)
    && (forall f | f in s.counts :: f in s.history <==> s.counts[f] < k)
    && (forall f | f in s.counts :: f in s.buffer <==> s.counts[f] >= k)
  }

  /** A repetition-free list does not repeat its head in its tail, which is repetition-free too. */
  lemma TailNoDup(s: seq<int>)
    requires |s| > 0 && NoDup(s)
    ensures s[0] !in s[1..] && NoDup(s[1..])
  {
    forall x | x in s[1..] ensures x != s[0] {
      var j :| 0 <= j < |s[1..]| && s[1..][j] == x;
      assert s[j + 1] == x;
    }
    forall i, j | 0 <= i < j < |s[1..]| ensures s[1..][i] != s[1..][j] {
      assert s[1..][i] == s[i + 1] && s[1..][j] == s[j + 1];
    }
  }

  /** Cutting out position `i >= 1` of `s` is cutting out position `i - 1` of its tail. */
  lemma CutTail(s: seq<int>, i: int)
    requires 1 <= i < |s|
    ensures s[..i] + s[i + 1..] == [s[0]] + (s[1..][..i - 1] + s[1..][i..])
  {
    assert s[..i] == [s[0]] + s[1..][..i - 1];
    assert s[i + 1..] == s[1..][i..];
  }

  /**
    One step of Erase on a repetition-free list: if `rest` cuts the one `f` out of
    the tail, then dropping or keeping the head cuts the one `f` out of `s`.
  */
  lemma EraseOrderStep(s: seq<int>, f: int, rest: seq<int>)
    requires |s| > 0 && NoDup(s)
    requires forall i | 0 <= i < |s[1..]| && s[1..][i] == f :: rest == s[1..][..i] + s[1..][i + 1..]
    requires f !in s[1..] ==> rest == s[1..]
    ensures var r := if s[0] == f then rest else [s[0]] + rest;
              forall i | 0 <= i < |s| && s[i] == f :: r == s[..i] + s[i + 1..]
  {
    TailNoDup(s);
    assert s == [s[0]] + s[1..];
    forall i | 0 <= i < |s| && s[i] == f
      ensures (if s[0] == f then rest else [s[0]] + rest) == s[..i] + s[i + 1..]
    {
      if s[0] != f {
        assert s[1..][i - 1] == f;
        CutTail(s, i);
      }
    }
  }

  /**
    One step of Erase: if `rest` has deleted `f` from the tail, then dropping or
    keeping the head has deleted it from `s`.
  */
  lemma EraseMembersStep(s: seq<int>, f: int, rest: seq<int>)
    requires |s| > 0
    requires forall x | x in rest :: x in s[1..] && x != f
    requires forall x | x in s[1..] && x != f :: x in rest
    requires |rest| <= |s[1..]|
    requires NoDup(s[1..]) ==> NoDup(rest)
    requires f !in s[1..] ==> rest == s[1..]
    ensures var r := if s[0] == f then rest else [s[0]] + rest;
              && (forall x | x in r :: x in s && x != f)
              && (forall x | x in s && x != f :: x in r)
              && |r| <= |s|
              && (NoDup(s) ==> NoDup(r))
              && (f !in s ==> r == s)
  {
    assert s == [s[0]] + s[1..];
    if NoDup(s) {
      TailNoDup(s);
    }
  }

  /** `std::list::remove`: every occurrence of `f` deleted, the rest in order. */
  function Erase(s: seq<int>, f: int): (r: seq<int>)
    ensures forall x | x in r :: x in s && x != f
    ensures forall x | x in s && x != f :: x in r
    ensures |r| <= |s|
    ensures NoDup(s) ==> NoDup(r)
    ensures f !in s ==> r == s
    ensures NoDup(s) ==> forall i | 0 <= i < |s| && s[i] == f :: r == s[..i] + s[i + 1..]
  {
    if |s| == 0 then []
    else
      var rest := Erase(s[1..], f);
      EraseMembersStep(s, f, rest);
      if NoDup(s) then
        EraseOrderStep(s, f, rest);
        if s[0] == f then rest else [s[0]] + rest
      else if s[0] == f then rest
      else [s[0]] + rest
  }

  /**
    The position a scan from the oldest end (`rbegin()`) stops at: the largest
    index holding an evictable frame, or -1 when there is none.
  */
  function LastEvictable(s: seq<int>, ev: map<int, bool>): (i: int)
    ensures -1 <= i < |s|
    ensures i >= 0 ==> IsEvictable(ev, s[i])
    ensures forall j | i < j < |s| :: !IsEvictable(ev, s[j])
  {
    if |s| == 0 then -1
    else if IsEvictable(ev, s[|s| - 1]) then |s| - 1
    else LastEvictable(s[..|s| - 1], ev)
  }

  /** Some frame in a set shows it is not empty. */
  lemma MemberCard(a: set<int>, f: int)
    requires f in a
    ensures |a| >= 1 && |a - {f}| == |a| - 1
  {
  }

  /** Dropping the evictable frame `f` from both maps and from `size`. */
  function Forget(s: State, f: int): (r: State)
    requires Wf(s) && IsEvictable(s.evictable, f)
    ensures EvictableFrames(r) == EvictableFrames(s) - {f}
    ensures r.size == |EvictableFrames(r)|
  {
    assert f in EvictableFrames(s);
    MemberCard(EvictableFrames(s), f);
    var r := s.(counts := s.counts - {f}, evictable := s.evictable - {f}, size := s.size - 1);
    assert EvictableFrames(r) == EvictableFrames(s) - {f};
    r
  }

  /**
    The scans of Evict and of RecordAccess (they are the same code): the oldest
    evictable cold frame is dropped from the cold list and from tracking, or,
    when there is none, the oldest evictable hot frame from the hot list.
  */
  function EvictOldestStep(s: State): (r: (State, Option<int>))
    requires Wf(s)
    ensures Wf(r.0)
  {
    var i := LastEvictable(s.history, s.evictable);
    if i >= 0 then
      var f := s.history[i];
      var r := Forget(s, f).(history := Erase(s.history, f));
      (r, Some(f))
    else
      var j := LastEvictable(s.buffer, s.evictable);
      if j >= 0 then
        var f := s.buffer[j];
        var r := Forget(s, f).(buffer := Erase(s.buffer, f));
        (r, Some(f))
      else (s, None)
  }

  /** Evict: nothing when no frame is evictable, otherwise the scans. */
  function EvictStep(s: State): (r: (State, Option<int>))
    requires Wf(s)
    ensures Wf(r.0)
    ensures r.1.None? ==> r.0 == s
  {
    if s.size == 0 then (s, None) else EvictOldestStep(s)
  }

  /** A replacer of capacity `cap` is full once it counts `cap` frames. */
  predicate IsFull(s: State, cap: nat)
  {
    |s.counts| == cap
  }

  /** InsertHistory and `evictable_[f] = false` for a frame not yet counted. */
  function Admit(s: State, f: int): (r: State)
    ensures r.history == [f] + s.history && r.buffer == s.buffer && r.counts == s.counts
    ensures !IsEvictable(r.evictable, f)
    ensures f !in s.evictable ==> EvictableFrames(r) == EvictableFrames(s) && r.size == s.size
  {
    s.(history := [f] + s.history, evictable := s.evictable[f := false])
  }

  /**
    `++history_cnt_[f]` (an absent frame counts as 0), and once the count reaches
    `k`, RemoveNodeHistory and InsertBuffer: the frame moves to the front of the
    hot list, leaving any earlier place in either list.
  */
  function Count(s: State, f: int, k: nat): (r: State)
    ensures f in r.counts && r.counts[f] == (if f in s.counts then s.counts[f] else 0) + 1
    ensures forall g | g in r.counts && g != f :: g in s.counts && r.counts[g] == s.counts[g]
    ensures r.evictable == s.evictable && r.size == s.size
    ensures r.counts[f] < k ==> r.history == s.history && r.buffer == s.buffer
    ensures r.counts[f] >= k ==> |r.buffer| > 0 && r.buffer[0] == f && f !in r.history && f !in r.buffer[1..]
  {
    var c := (if f in s.counts then s.counts[f] else 0) + 1;
    var s' := s.(counts := s.counts[f := c]);
    if c >= k then s'.(history := Erase(s'.history, f), buffer := [f] + Erase(s'.buffer, f)) else s'
  }

  /**
    RecordAccess: a frame not yet counted is admitted to the cold list, after an
    eviction when the replacer is full; when nothing can be evicted the access is
    dropped.  Then the access is counted.
  */
  function AccessStep(s: State, f: int, cap: nat, k: nat): (r: State)
    requires Wf(s)
    ensures r == s || f in r.counts
  {
    if f !in s.counts then
      if IsFull(s, cap) then
        var (s1, v) := EvictOldestStep(s);
        if v.None? then s else Count(Admit(s1, f), f, k)
      else Count(Admit(s, f), f, k)
    else Count(s, f, k)
  }

  /** The flag update of SetEvictable, with `size` following it. */
  function Toggle(s: State, f: int, flag: bool): (r: State)
    requires Wf(s)
    ensures IsEvictable(r.evictable, f) == flag
    ensures forall g | g != f :: IsEvictable(r.evictable, g) == IsEvictable(s.evictable, g)
    ensures r.history == s.history && r.buffer == s.buffer && r.counts == s.counts
  {
    if IsEvictable(s.evictable, f) && !flag then
      assert f in EvictableFrames(s);
      MemberCard(EvictableFrames(s), f);
      s.(size := s.size - 1, evictable := s.evictable[f := false])
    else if !IsEvictable(s.evictable, f) && flag then s.(size := s.size + 1, evictable := s.evictable[f := true])
    else s
  }

  /** SetEvictable as intended: a frame with no recorded access is left alone. */
  function SetEvictableStep(s: State, f: int, flag: bool): State
    requires Wf(s)
  {
    if f !in s.counts || s.counts[f] == 0 then s else Toggle(s, f, flag)
  }

  /**
    SetEvictable as the source writes it: the test `history_cnt_[f] == 0` inserts
    a zero count for a frame never seen before.
  */
  function SetEvictableAsWrittenStep(s: State, f: int, flag: bool): State
    requires Wf(s)
  {
    if f !in s.counts then s.(counts := s.counts[f := 0])
    else if s.counts[f] == 0 then s
    else Toggle(s, f, flag)
  }

  /**
    Remove: nothing for an uncounted or zero-count frame, an error (state kept)
    for a pinned one, and otherwise the frame leaves its list and tracking.
  */
  function RemoveStep(s: State, f: int, k: nat): (r: (State, Outcome))
    requires Wf(s)
    ensures r.1 == InvalidOperation ==> r.0 == s && f in s.counts && !IsEvictable(s.evictable, f)
    ensures r.1 == Ok && f in s.counts && s.counts[f] > 0 ==> f !in r.0.counts && !IsEvictable(r.0.evictable, f) && r.0.size == s.size - 1
  {
    if f !in s.counts || s.counts[f] == 0 then (s, Ok)
    else if !IsEvictable(s.evictable, f) then (s, InvalidOperation)
    else
      var s1 := if s.counts[f] < k then s.(history := Erase(s.history, f)) else s.(buffer := Erase(s.buffer, f));
      (Forget(s1, f), Ok)
  }
}

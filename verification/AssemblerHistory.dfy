/** The assembler's answers from its history alone: what has come, when, and how it was answered. */
module AssemblerHistory {
  import opened Prelude
  import opened Bytes
  import opened Fragment

  /** A run of a new assembler over any fragments whatever; the clock never goes back. */
  datatype Run = Run(states: seq<InFlight>, heads: seq<FragmentHeader>, times: seq<nat>, answers: seq<Append>)

  ghost predicate IsRun(run: Run) {
    && |run.states| == |run.heads| + 1 && |run.times| == |run.answers| == |run.heads|
    && run.states[0] == map[]
    && (forall i :: 0 <= i < |run.heads| ==> NextAt(run, i))
    && (forall i, j :: 0 <= i <= j < |run.times| ==> run.times[i] <= run.times[j])
  }

  ghost predicate NextAt(run: Run, i: int)
    requires 0 <= i < |run.heads|
    requires |run.states| == |run.heads| + 1 && |run.times| == |run.answers| == |run.heads|
  {
    && run.heads[i].Valid()
    && (run.states[i + 1], run.answers[i]) == Appended(run.states[i], run.heads[i], run.times[i])
  }

  // ---------- What the history says ----------

  const DUPLICATE := Rejected("duplicate fragment")

  /** Fragment `i`, of the stream of fragment `j`, was kept. */
  predicate Kept(run: Run, j: nat, i: nat)
    requires j < |run.heads| && i < |run.heads| == |run.answers|
  {
    run.heads[i].key == run.heads[j].key && run.answers[i].Pending?
  }

  /** Fragment `j` began a stream that nothing before fragment `k` has ended. */
  ghost predicate Open(run: Run, j: nat, k: nat)
    requires |run.times| == |run.answers| == |run.heads|
  {
    && j < k <= |run.heads|
    && run.answers[j] == Pending(1, run.heads[j].total)
    && run.times[k - 1] < run.times[j] + 30_000
    && forall i :: j < i < k && run.heads[i].key == run.heads[j].key ==> Continues(run.answers[i])
  }

  predicate Continues(answer: Append) {
    answer == DUPLICATE || (answer.Pending? && answer.have > 1)
  }

  /** And its thirty seconds have not run out when fragment `k` comes. */
  ghost predicate Current(run: Run, j: nat, k: nat)
    requires |run.times| == |run.answers| == |run.heads| && k < |run.heads|
  {
    Open(run, j, k) && run.times[k] < run.times[j] + 30_000
  }

  ghost predicate Begun(run: Run, k: nat, key: Key)
    requires |run.times| == |run.answers| == |run.heads| && k <= |run.heads|
  {
    exists j :: 0 <= j < k && run.heads[j].key == key && Open(run, j, k)
  }

  /** What has been kept at place `x` since fragment `j` began the stream. */
  function Slot(run: Run, j: nat, k: nat, x: nat): Option<seq<byte>>
    requires j < |run.heads| && k <= |run.heads| == |run.answers|
  {
    if k <= j then None
    else if Kept(run, j, k - 1) && run.heads[k - 1].index == x then Some(run.heads[k - 1].data)
    else Slot(run, j, k - 1, x)
  }

  /** How many fragments have been kept, and how many bytes they are. */
  function Count(run: Run, j: nat, k: nat): nat
    requires j < |run.heads| && k <= |run.heads| == |run.answers|
  {
    if k <= j then 0 else Count(run, j, k - 1) + (if Kept(run, j, k - 1) then 1 else 0)
  }

  function Volume(run: Run, j: nat, k: nat): nat
    requires j < |run.heads| && k <= |run.heads| == |run.answers|
  {
    if k <= j then 0 else Volume(run, j, k - 1) + (if Kept(run, j, k - 1) then |run.heads[k - 1].data| else 0)
  }

  ghost function Waiting(run: Run, k: nat): set<nat>
    requires |run.times| == |run.answers| == |run.heads| && k < |run.heads|
  {
    set j | 0 <= j < k && Current(run, j, k)
  }

  /** The whole stream: at each place what was kept there, or the fragment that has just come. */
  ghost predicate Whole(run: Run, j: nat, k: nat, slices: seq<seq<byte>>)
    requires j < |run.heads| && k < |run.heads| == |run.answers|
  {
    && |slices| == run.heads[k].total
    && forall x :: 0 <= x < |slices|
         ==> Some(slices[x]) == if x == run.heads[k].index then Some(run.heads[k].data) else Slot(run, j, k, x)
  }

  /** The answer to a fragment of a stream of `total` places that holds `count` fragments of `volume` bytes. */
  predicate AnswerToNext(answer: Append, h: FragmentHeader, total: nat, place: Option<seq<byte>>, count: nat,
                         volume: nat)
  {
    if h.total != total then answer == Rejected("fragment count changed mid-assembly")
    else if place.Some? then answer == DUPLICATE
    else if volume + |h.data| > 1_179_760 then answer == Rejected("assembly exceeds the size limit")
    else if count + 1 < total then answer == Pending(count + 1, total)
    else answer.Complete?
  }

  /** The answer to a fragment of a stream that is not under way, when `waiting` others are. */
  predicate AnswerToFirst(answer: Append, h: FragmentHeader, waiting: nat) {
    if waiting >= 128 then answer == Rejected("too many assemblies in flight")
    else if |h.data| > 1_179_760 then answer == Rejected("assembly exceeds the size limit")
    else if h.total > 1 then answer == Pending(1, h.total)
    else answer == Complete(h.data)
  }

  ghost predicate AnswersNext(run: Run, j: nat, k: nat)
    requires j < |run.heads| && k < |run.heads| == |run.answers|
  {
    var (h, answer) := (run.heads[k], run.answers[k]);
    && AnswerToNext(answer, h, run.heads[j].total, Slot(run, j, k, h.index), Count(run, j, k), Volume(run, j, k))
    && (answer.Complete? ==> exists slices :: Whole(run, j, k, slices) && answer.body == Flatten(slices))
  }

  // ---------- The state is what the history says ----------

  ghost predicate Describes(a: Assembly, run: Run, j: nat, k: nat)
    requires j < |run.heads| && k <= |run.heads| == |run.answers| == |run.times|
  {
    && a.started == run.times[j] && |a.pieces| == run.heads[j].total
    && a.received == Count(run, j, k) && a.bytes == Volume(run, j, k)
    && forall x :: 0 <= x < |a.pieces| ==> a.pieces[x] == Slot(run, j, k, x)
  }

  ghost predicate RecordedIn(inFlight: InFlight, run: Run, j: nat, k: nat)
    requires j < |run.heads| && k <= |run.heads| == |run.answers| == |run.times|
  {
    var key := run.heads[j].key;
    key in inFlight && Describes(inFlight[key], run, j, k)
  }

  /** The assembly of the stream that fragment `j` began is the one the history describes. */
  ghost predicate Recorded(run: Run, j: nat, k: nat)
    requires |run.times| == |run.answers| == |run.heads| && |run.states| == |run.heads| + 1
    requires j < k <= |run.heads|
  {
    RecordedIn(run.states[k], run, j, k)
  }

  ghost predicate Matches(run: Run, k: nat)
    requires |run.times| == |run.answers| == |run.heads| && |run.states| == |run.heads| + 1 && k <= |run.heads|
  {
    && (forall j :: 0 <= j < k && Open(run, j, k) ==> Recorded(run, j, k))
    && (forall key :: key in run.states[k] ==> Begun(run, k, key))
    && Fragment.Kept(run.states[k])
  }

  lemma OneOpening(run: Run, i: nat, j: nat, k: nat)
    requires |run.times| == |run.answers| == |run.heads|
    requires Open(run, i, k) && Open(run, j, k) && run.heads[i].key == run.heads[j].key
    ensures i == j
  {
  }

  lemma {:induction false} OpenedCounts(run: Run, j: nat, k: nat)
    requires |run.answers| == |run.heads| && j < k <= |run.heads| && run.answers[j].Pending?
    ensures Count(run, j, k) >= 1
  {
    if j + 1 < k {
      OpenedCounts(run, j, k - 1);
    }
  }

  lemma NothingYet(run: Run, k: nat, x: nat)
    requires k < |run.heads| == |run.answers|
    ensures Count(run, k, k) == 0 && Volume(run, k, k) == 0 && Slot(run, k, k, x) == None
  {
  }

  ghost predicate UnderWay(run: Run, k: nat, key: Key)
    requires |run.times| == |run.answers| == |run.heads| && k < |run.heads|
  {
    exists j :: 0 <= j < k && run.heads[j].key == key && Current(run, j, k)
  }

  /** What is live at fragment `k` is what is current. */
  lemma LiveIsCurrent(run: Run, k: nat, key: Key)
    requires IsRun(run) && k < |run.heads| && Matches(run, k)
    ensures key in Live(run.states[k], run.times[k])
       <==> UnderWay(run, k, key)
  {
    if key in run.states[k] {
      var j :| 0 <= j < k && run.heads[j].key == key && Open(run, j, k);
      assert Recorded(run, j, k);
      forall i | 0 <= i < k && run.heads[i].key == key && Current(run, i, k) ensures i == j {
        OneOpening(run, i, j, k);
      }
    }
    if j :| 0 <= j < k && run.heads[j].key == key && Current(run, j, k) {
      assert Recorded(run, j, k);
    }
  }

  /** The streams that fragments `js` began. */
  function Keys(heads: seq<FragmentHeader>, js: set<nat>): set<Key>
    requires forall j :: j in js ==> j < |heads|
  {
    set j | j in js :: heads[j].key
  }

  ghost predicate Apart(heads: seq<FragmentHeader>, js: set<nat>)
    requires forall j :: j in js ==> j < |heads|
  {
    forall i, j :: i in js && j in js && heads[i].key == heads[j].key ==> i == j
  }

  lemma {:induction false} KeysCounted(heads: seq<FragmentHeader>, js: set<nat>)
    requires forall j :: j in js ==> j < |heads|
    requires Apart(heads, js)
    ensures |Keys(heads, js)| == |js|
  {
    if js != {} {
      var x :| x in js;
      var rest := js - {x};
      KeysCounted(heads, rest);
      assert heads[x].key !in Keys(heads, rest);
      assert Keys(heads, js) == Keys(heads, rest) + {heads[x].key};
    }
  }

  lemma WaitingApart(run: Run, k: nat, i: nat, j: nat)
    requires |run.times| == |run.answers| == |run.heads| && k < |run.heads|
    requires i in Waiting(run, k) && j in Waiting(run, k) && run.heads[i].key == run.heads[j].key
    ensures i == j
  {
    OneOpening(run, i, j, k);
  }

  lemma KeysUnderWay(run: Run, k: nat, key: Key)
    requires |run.times| == |run.answers| == |run.heads| && k < |run.heads|
    ensures key in Keys(run.heads, Waiting(run, k)) <==> UnderWay(run, k, key)
  {
    if UnderWay(run, k, key) {
      var j :| 0 <= j < k && run.heads[j].key == key && Current(run, j, k);
      assert j in Waiting(run, k);
    }
  }

  lemma LiveKeys(run: Run, k: nat, live: set<Key>, keys: set<Key>)
    requires IsRun(run) && k < |run.heads| && Matches(run, k)
    requires live == Live(run.states[k], run.times[k]).Keys && keys == Keys(run.heads, Waiting(run, k))
    ensures live == keys
  {
    forall key ensures key in live <==> key in keys {
      LiveIsCurrent(run, k, key);
      KeysUnderWay(run, k, key);
    }
  }

  lemma LiveCount(run: Run, k: nat)
    requires IsRun(run) && k < |run.heads| && Matches(run, k)
    ensures |Live(run.states[k], run.times[k])| == |Waiting(run, k)|
  {
    var live, js := Live(run.states[k], run.times[k]), Waiting(run, k);
    LiveKeys(run, k, live.Keys, Keys(run.heads, js));
    forall i, j | i in js && j in js && run.heads[i].key == run.heads[j].key ensures i == j {
      WaitingApart(run, k, i, j);
    }
    assert Apart(run.heads, js);
    KeysCounted(run.heads, js);
    assert |live| == |live.Keys|;
  }

  // ---------- One fragment ----------

  lemma CurrentIsLive(run: Run, j: nat, k: nat)
    requires IsRun(run) && k < |run.heads| && Matches(run, k) && Current(run, j, k)
    ensures var live := Live(run.states[k], run.times[k]);
            RecordedIn(live, run, j, k) && Sound(live[run.heads[j].key])
  {
    assert Recorded(run, j, k);
  }

  /** A stored fragment that fills the last gap. */
  lemma LastFills(run: Run, j: nat, k: nat, a: Assembly)
    requires j < k < |run.heads| == |run.answers| == |run.times|
    requires Describes(a, run, j, k) && Sound(a) && run.heads[k].index < |a.pieces| == run.heads[k].total
    requires a.pieces[run.heads[k].index].None? && a.received + 1 == |a.pieces|
    ensures exists slices :: Whole(run, j, k, slices) && Joined(Stored(a, run.heads[k]).pieces) == Flatten(slices)
  {
    var stored := Stored(a, run.heads[k]);
    StoreCounts(a.pieces, run.heads[k].index, run.heads[k].data);
    FilledAll(stored.pieces);
    var slices := seq(|stored.pieces|, x requires 0 <= x < |stored.pieces| => stored.pieces[x].value);
    JoinedBounded(stored.pieces, slices);
    assert Whole(run, j, k, slices);
  }

  lemma TakenNext(live: InFlight, h: FragmentHeader, now: nat, place: Option<seq<byte>>)
    requires h.Valid() && h.key in live
    requires h.index < |live[h.key].pieces| ==> live[h.key].pieces[h.index] == place
    ensures var (a, answer) := (live[h.key], Taken(live, h, now).1);
            && AnswerToNext(answer, h, |a.pieces|, place, a.received, a.bytes)
            && (answer.Complete? ==> |a.pieces| == h.total && place.None? && a.received + 1 >= |a.pieces|
                                     && answer.body == Joined(Stored(a, h).pieces))
  {
  }

  lemma TakenFirst(live: InFlight, h: FragmentHeader, now: nat)
    requires h.Valid() && h.key !in live
    ensures AnswerToFirst(Taken(live, h, now).1, h, |live|)
  {
    if h.total == 1 {
      assert Empty(1)[0 := Some(h.data)] == [Some(h.data)];
      SingleJoined(h.data);
    }
  }

  lemma SingleJoined(data: seq<byte>)
    ensures Joined([Some(data)]) == data
  {
    assert [Some(data)][..0] == [];
  }

  lemma StepTaken(run: Run, k: nat)
    requires IsRun(run) && k < |run.heads|
    ensures run.heads[k].Valid()
    ensures (run.states[k + 1], run.answers[k]) == Taken(Live(run.states[k], run.times[k]), run.heads[k], run.times[k])
  {
    assert NextAt(run, k);
  }

  lemma NextAnswer(run: Run, j: nat, k: nat)
    requires IsRun(run) && k < |run.heads| && Matches(run, k)
    requires Current(run, j, k) && run.heads[j].key == run.heads[k].key
    ensures AnswersNext(run, j, k)
  {
    var (h, now) := (run.heads[k], run.times[k]);
    var live := Live(run.states[k], now);
    CurrentIsLive(run, j, k);
    StepTaken(run, k);
    TakenNext(live, h, now, Slot(run, j, k, h.index));
    if run.answers[k].Complete? {
      LastFills(run, j, k, live[h.key]);
    }
  }

  lemma FirstAnswer(run: Run, k: nat)
    requires IsRun(run) && k < |run.heads| && Matches(run, k)
    requires !UnderWay(run, k, run.heads[k].key)
    ensures AnswerToFirst(run.answers[k], run.heads[k], |Waiting(run, k)|)
  {
    LiveIsCurrent(run, k, run.heads[k].key);
    LiveCount(run, k);
    StepTaken(run, k);
    TakenFirst(Live(run.states[k], run.times[k]), run.heads[k], run.times[k]);
  }

  // ---------- What a fragment leaves ----------

  lemma TakenOthers(live: InFlight, h: FragmentHeader, now: nat, key: Key)
    requires h.Valid() && key != h.key
    ensures var next := Taken(live, h, now).0;
            (key in next <==> key in live) && (key in live ==> next[key] == live[key])
  {
  }

  lemma TakenOwn(live: InFlight, h: FragmentHeader, now: nat)
    requires h.Valid()
    ensures var (next, answer) := Taken(live, h, now);
            && (h.key in next <==> answer.Pending? || (answer == DUPLICATE && h.key in live))
            && (answer.Pending?
                ==> |Found(live, h, now).pieces| == h.total && next[h.key] == Stored(Found(live, h, now), h))
            && (answer == DUPLICATE && h.key in live ==> next[h.key] == live[h.key])
  {
  }

  lemma NotKept(a: Assembly, run: Run, j: nat, k: nat, next: nat)
    requires j < k < |run.heads| == |run.answers| == |run.times| && next == k + 1
    requires Describes(a, run, j, k) && !Kept(run, j, k)
    ensures Describes(a, run, j, next)
  {
  }

  lemma NowKept(a: Assembly, run: Run, j: nat, k: nat, next: nat)
    requires j <= k < |run.heads| == |run.answers| == |run.times| && next == k + 1
    requires Describes(a, run, j, k) && Kept(run, j, k) && run.heads[k].index < |a.pieces|
    ensures Describes(Stored(a, run.heads[k]), run, j, next)
  {
  }

  lemma StillOpen(run: Run, j: nat, k: nat, next: nat)
    requires IsRun(run) && j < k < |run.heads| && next == k + 1
    ensures Open(run, j, next)
       <==> Current(run, j, k) && (run.heads[k].key == run.heads[j].key ==> Continues(run.answers[k]))
  {
  }

  lemma OtherGoesOn(live: InFlight, after: InFlight, run: Run, j: nat, k: nat, next: nat)
    requires j < k < |run.heads| == |run.answers| == |run.times| && next == k + 1
    requires run.heads[k].Valid() && (after, run.answers[k]) == Taken(live, run.heads[k], run.times[k])
    requires RecordedIn(live, run, j, k) && run.heads[k].key != run.heads[j].key
    ensures RecordedIn(after, run, j, next)
  {
    TakenOthers(live, run.heads[k], run.times[k], run.heads[j].key);
    NotKept(live[run.heads[j].key], run, j, k, next);
  }

  lemma OwnGoesOn(live: InFlight, after: InFlight, run: Run, j: nat, k: nat, next: nat)
    requires j < k < |run.heads| == |run.answers| == |run.times| && next == k + 1
    requires run.heads[k].Valid() && (after, run.answers[k]) == Taken(live, run.heads[k], run.times[k])
    requires RecordedIn(live, run, j, k) && run.heads[k].key == run.heads[j].key && Continues(run.answers[k])
    ensures RecordedIn(after, run, j, next)
  {
    TakenOwn(live, run.heads[k], run.times[k]);
    if run.answers[k].Pending? {
      NowKept(live[run.heads[k].key], run, j, k, next);
    } else {
      NotKept(live[run.heads[k].key], run, j, k, next);
    }
  }

  /** A stream that goes on is recorded as it should be. */
  lemma RecordedOn(run: Run, j: nat, k: nat, next: nat)
    requires IsRun(run) && j < k < |run.heads| && next == k + 1
    requires RecordedIn(Live(run.states[k], run.times[k]), run, j, k)
    requires run.heads[k].key == run.heads[j].key ==> Continues(run.answers[k])
    ensures RecordedIn(run.states[next], run, j, next)
  {
    StepTaken(run, k);
    if run.heads[k].key == run.heads[j].key {
      OwnGoesOn(Live(run.states[k], run.times[k]), run.states[next], run, j, k, next);
    } else {
      OtherGoesOn(Live(run.states[k], run.times[k]), run.states[next], run, j, k, next);
    }
  }

  lemma NewHere(run: Run, k: nat)
    requires IsRun(run) && k < |run.heads| && Matches(run, k) && run.answers[k] == Pending(1, run.heads[k].total)
    ensures run.heads[k].key !in Live(run.states[k], run.times[k])
  {
    LiveIsCurrent(run, k, run.heads[k].key);
    if UnderWay(run, k, run.heads[k].key) {
      var j :| 0 <= j < k && run.heads[j].key == run.heads[k].key && Current(run, j, k);
      NextAnswer(run, j, k);
      OpenedCounts(run, j, k);
      assert false;
    }
  }

  lemma Begins(live: InFlight, after: InFlight, run: Run, k: nat, next: nat)
    requires k < |run.heads| == |run.answers| == |run.times| && next == k + 1
    requires run.heads[k].Valid() && (after, run.answers[k]) == Taken(live, run.heads[k], run.times[k])
    requires run.heads[k].key !in live && run.answers[k].Pending?
    ensures RecordedIn(after, run, k, next)
  {
    TakenOwn(live, run.heads[k], run.times[k]);
    NowKept(Found(live, run.heads[k], run.times[k]), run, k, k, next);
  }

  /** A stream that begins is recorded with its first fragment. */
  lemma RecordedFirst(run: Run, k: nat, next: nat)
    requires IsRun(run) && k < |run.heads| && next == k + 1 && Matches(run, k) && Open(run, k, next)
    ensures Recorded(run, k, next)
  {
    NewHere(run, k);
    StepTaken(run, k);
    Begins(Live(run.states[k], run.times[k]), run.states[next], run, k, next);
  }

  /** A stream that is there after a fragment of its own has gone on with it. */
  lemma HasGoneOn(run: Run, j: nat, k: nat, next: nat)
    requires IsRun(run) && k < |run.heads| && next == k + 1 && Matches(run, k) && Current(run, j, k)
    requires run.heads[k].key == run.heads[j].key && run.heads[k].key in run.states[next]
    ensures Continues(run.answers[k])
  {
    StepTaken(run, k);
    TakenOwn(Live(run.states[k], run.times[k]), run.heads[k], run.times[k]);
    NextAnswer(run, j, k);
    OpenedCounts(run, j, k);
  }

  lemma StaysBegun(run: Run, k: nat, next: nat, key: Key)
    requires IsRun(run) && k < |run.heads| && next == k + 1 && Matches(run, k)
    requires UnderWay(run, k, key) && key in run.states[next]
    ensures Begun(run, next, key)
  {
    var j :| 0 <= j < k && run.heads[j].key == key && Current(run, j, k);
    if key == run.heads[k].key {
      HasGoneOn(run, j, k, next);
    }
    StillOpen(run, j, k, next);
  }

  lemma BeginsNow(run: Run, k: nat, next: nat, key: Key)
    requires IsRun(run) && k < |run.heads| && next == k + 1 && Matches(run, k)
    requires !UnderWay(run, k, key) && key in run.states[next]
    ensures Begun(run, next, key)
  {
    LiveIsCurrent(run, k, key);
    StepTaken(run, k);
    if key != run.heads[k].key {
      TakenOthers(Live(run.states[k], run.times[k]), run.heads[k], run.times[k], key);
    } else {
      TakenOwn(Live(run.states[k], run.times[k]), run.heads[k], run.times[k]);
      FirstAnswer(run, k);
    }
    assert Open(run, k, next);
  }

  /** What is in flight was begun. */
  lemma BegunBefore(run: Run, k: nat, next: nat, key: Key)
    requires IsRun(run) && k < |run.heads| && next == k + 1 && Matches(run, k) && key in run.states[next]
    ensures Begun(run, next, key)
  {
    if UnderWay(run, k, key) {
      StaysBegun(run, k, next, key);
    } else {
      BeginsNow(run, k, next, key);
    }
  }

  lemma MatchesNext(run: Run, k: nat, next: nat)
    requires IsRun(run) && k < |run.heads| && next == k + 1 && Matches(run, k)
    ensures Matches(run, next)
  {
    forall j | 0 <= j < next && Open(run, j, next) ensures Recorded(run, j, next) {
      if j < k {
        StillOpen(run, j, k, next);
        CurrentIsLive(run, j, k);
        RecordedOn(run, j, k, next);
      } else {
        RecordedFirst(run, k, next);
      }
    }
    forall key | key in run.states[next] ensures Begun(run, next, key) {
      BegunBefore(run, k, next, key);
    }
    assert NextAt(run, k);
    AppendKeeps(run.states[k], run.heads[k], run.times[k]);
  }

  lemma {:induction false} AlwaysMatches(run: Run, k: nat)
    requires IsRun(run) && k <= |run.heads|
    ensures Matches(run, k)
  {
    if k > 0 {
      AlwaysMatches(run, k - 1);
      MatchesNext(run, k - 1, k);
    }
  }

  /**
   * Whatever fragments come, whenever, of however many streams: the assembler's answers follow from those before. A
   * stream lives thirty seconds from its first fragment and no longer, however many come; at one whose count differs
   * it ends; and a fragment is kept exactly if its place is free and the bytes stay within the limit.
   */
  lemma AnswersFollow(run: Run, k: nat)
    requires IsRun(run) && k < |run.heads|
    ensures forall j :: 0 <= j < k && Current(run, j, k) && run.heads[j].key == run.heads[k].key
              ==> AnswersNext(run, j, k)
    ensures (forall j :: 0 <= j < k && run.heads[j].key == run.heads[k].key ==> !Current(run, j, k))
        ==> AnswerToFirst(run.answers[k], run.heads[k], |Waiting(run, k)|)
  {
    AlwaysMatches(run, k);
    forall j | 0 <= j < k && Current(run, j, k) && run.heads[j].key == run.heads[k].key ensures AnswersNext(run, j, k) {
      NextAnswer(run, j, k);
    }
    if !UnderWay(run, k, run.heads[k].key) {
      FirstAnswer(run, k);
    }
  }

  /** And an assembly is in flight exactly if a fragment began it less than thirty seconds before the last one came. */
  lemma InFlightExactlyWhen(run: Run, k: nat, key: Key)
    requires IsRun(run) && k <= |run.heads|
    ensures key in run.states[k] <==> Begun(run, k, key)
  {
    AlwaysMatches(run, k);
    if j :| 0 <= j < k && run.heads[j].key == key && Open(run, j, k) {
      assert Recorded(run, j, k);
    }
  }
}

/** The metrics store: a ring of raw samples and a rollup of per-minute means. Values are exact reals. */
module Metrics {

  import opened Common

  datatype Sample = Sample(ts: nat, value: real)

  /** The minute being filled: its number, the sum and count of its values. */
  datatype Bucket = Bucket(minute: nat, sum: real, count: nat)

  const RAW_CAP := 3600
  const MINUTE_CAP := 1440

  // ----- The batch computation over a whole history -----

  function MinuteOf(s: Sample): nat
  {
    s.ts / 60
  }

  function SumOf(h: seq<Sample>, minute: nat): real
  {
    if h == [] then 0.0
    else SumOf(h[..|h| - 1], minute) + if MinuteOf(h[|h| - 1]) == minute then h[|h| - 1].value else 0.0
  }

  function CountOf(h: seq<Sample>, minute: nat): nat
  {
    if h == [] then 0
    else CountOf(h[..|h| - 1], minute) + if MinuteOf(h[|h| - 1]) == minute then 1 else 0
  }

  /** The mean of all the history's samples of one minute, stamped with the minute's start. */
  function MeanOf(h: seq<Sample>, minute: nat): Sample
  {
    Sample(minute * 60, if CountOf(h, minute) == 0 then 0.0 else SumOf(h, minute) / CountOf(h, minute) as real)
  }

  ghost predicate HasMinute(h: seq<Sample>, minute: nat)
  {
    exists i | 0 <= i < |h| :: MinuteOf(h[i]) == minute
  }

  lemma HasMinuteAppend(h: seq<Sample>, x: Sample, minute: nat)
    ensures HasMinute(h + [x], minute) <==> HasMinute(h, minute) || MinuteOf(x) == minute
  {
    var all := h + [x];
    assert all[|h|] == x;
    if HasMinute(h, minute) {
      var i :| 0 <= i < |h| && MinuteOf(h[i]) == minute;
      assert MinuteOf(all[i]) == minute;
    }
  }

  /** The minutes that have samples, in the order they first appear. */
  function Minutes(h: seq<Sample>): (ms: seq<nat>)
    ensures forall m :: m in ms <==> HasMinute(h, m)
  {
    if h == [] then []
    else
      var init, x := h[..|h| - 1], h[|h| - 1];
      assert h == init + [x];
      assert forall m :: HasMinute(h, m) <==> HasMinute(init, m) || MinuteOf(x) == m by {
        forall m: nat ensures HasMinute(h, m) <==> HasMinute(init, m) || MinuteOf(x) == m {
          HasMinuteAppend(init, x, m);
        }
      }
      if MinuteOf(x) in Minutes(init) then Minutes(init) else Minutes(init) + [MinuteOf(x)]
  }

  /** Every minute but the one still open, each with the mean of all its samples. */
  function Rollup(h: seq<Sample>): (r: seq<Sample>)
    ensures |r| == if Minutes(h) == [] then 0 else |Minutes(h)| - 1
  {
    var ms := Minutes(h);
    seq(if ms == [] then 0 else |ms| - 1, i requires 0 <= i < |ms| - 1 => MeanOf(h, ms[i]))
  }

  ghost predicate NonDecreasing(h: seq<Sample>)
  {
    forall i, j | 0 <= i < j < |h| :: h[i].ts <= h[j].ts
  }

  /** No minute recurs after a sample of another one. */
  ghost predicate Contiguous(h: seq<Sample>)
  {
    forall i, j, k | 0 <= i <= j <= k < |h| && MinuteOf(h[i]) == MinuteOf(h[k]) :: MinuteOf(h[j]) == MinuteOf(h[i])
  }

  /** The values of the samples from a time on, for a minute. */
  function SumFrom(h: seq<Sample>, from: nat): real
  {
    if h == [] then 0.0 else (if from <= h[0].ts < from + 60 then h[0].value else 0.0) + SumFrom(h[1..], from)
  }

  function CountFrom(h: seq<Sample>, from: nat): nat
  {
    if h == [] then 0 else (if from <= h[0].ts < from + 60 then 1 else 0) + CountFrom(h[1..], from)
  }

  lemma {:induction false} FromSnoc(h: seq<Sample>, x: Sample, from: nat)
    ensures SumFrom(h + [x], from) == SumFrom(h, from) + if from <= x.ts < from + 60 then x.value else 0.0
    ensures CountFrom(h + [x], from) == CountFrom(h, from) + if from <= x.ts < from + 60 then 1 else 0
  {
    if h == [] {
      assert h + [x] == [x];
    } else {
      assert (h + [x])[1..] == h[1..] + [x];
      FromSnoc(h[1..], x, from);
    }
  }

  lemma {:induction false} OfIsFrom(h: seq<Sample>, minute: nat)
    ensures SumOf(h, minute) == SumFrom(h, 60 * minute) && CountOf(h, minute) == CountFrom(h, 60 * minute)
  {
    if h != [] {
      var init, x := h[..|h| - 1], h[|h| - 1];
      OfIsFrom(init, minute);
      FromSnoc(init, x, 60 * minute);
      assert h == init + [x];
      assert MinuteOf(x) == minute <==> 60 * minute <= x.ts < 60 * minute + 60;
      hide MinuteOf, SumFrom, CountFrom;
    }
  }

  /** A finished minute starts at a whole minute, has samples, and its value is their sum over their number. */
  ghost predicate IsMean(h: seq<Sample>, r: Sample)
  {
    r.ts % 60 == 0 && CountFrom(h, r.ts) > 0 && r.value * CountFrom(h, r.ts) as real == SumFrom(h, r.ts)
  }

  lemma MeanIsMean(h: seq<Sample>, minute: nat)
    requires HasMinute(h, minute)
    ensures IsMean(h, MeanOf(h, minute)) && MeanOf(h, minute).ts == minute * 60
  {
    OfIsFrom(h, minute);
    var i :| 0 <= i < |h| && MinuteOf(h[i]) == minute;
    SomeOf(h, i);
    var sum, count := SumOf(h, minute), CountOf(h, minute) as real;
    assert count > 0.0 && sum / count * count == sum;
    hide SumOf, CountOf, SumFrom, CountFrom;
  }

  /**
    What a rollup is: means, one for each minute in which a sample came, each
    minute once, except the one listed last.
  */
  lemma RollupMeans(h: seq<Sample>)
    ensures forall r | r in Rollup(h) :: IsMean(h, r)
    ensures forall i, j | 0 <= i < j < |Rollup(h)| :: Rollup(h)[i].ts != Rollup(h)[j].ts
    ensures Contiguous(h) ==> forall x | x in h && x.ts / 60 != h[|h| - 1].ts / 60 ::
              exists r | r in Rollup(h) :: r.ts <= x.ts < r.ts + 60
  {
    var ms, rollup := Minutes(h), Rollup(h);
    MinutesEndOpen(h);
    forall i | 0 <= i < |rollup| ensures IsMean(h, rollup[i]) && rollup[i].ts == ms[i] * 60 {
      assert ms[i] in ms;
      MeanIsMean(h, ms[i]);
    }
    hide Rollup, MeanOf, IsMean, Contiguous, Minutes;
    forall x | x in h && Contiguous(h) && x.ts / 60 != h[|h| - 1].ts / 60
      ensures exists r | r in rollup :: r.ts <= x.ts < r.ts + 60
    {
      var k :| 0 <= k < |h| && h[k] == x;
      assert HasMinute(h, MinuteOf(x)) && MinuteOf(x) in ms;
      var i :| 0 <= i < |ms| && ms[i] == MinuteOf(x);
      assert i < |rollup|;
      assert rollup[i] in rollup;
    }
  }

  /** The open bucket of a history: the minute of its latest sample, with the sum and number of the samples in it. */
  lemma OpenMeans(h: seq<Sample>)
    ensures OpenOf(h).None? <==> h == []
    ensures OpenOf(h).Some? ==>
              var b := OpenOf(h).value;
              && b.minute == h[|h| - 1].ts / 60
              && b.sum == SumFrom(h, 60 * b.minute) && b.count == CountFrom(h, 60 * b.minute)
  {
    if h != [] { OfIsFrom(h, MinuteOf(h[|h| - 1])); }
  }

  // ----- The streaming computation -----

  /** What the store holds for one metric. */
  datatype Series = Series(raw: seq<Sample>, minute: seq<Sample>, bucket: Option<Bucket>)

  /** The open bucket a history leaves. */
  function OpenOf(h: seq<Sample>): Option<Bucket>
  {
    if h == [] then None
    else var m := MinuteOf(h[|h| - 1]); Some(Bucket(m, SumOf(h, m), CountOf(h, m)))
  }

  ghost predicate MatchesBatch(s: Series, h: seq<Sample>)
  {
    && s.raw == Last(h, RAW_CAP)
    && (Contiguous(h) ==> RollupMatches(s, h))
  }

  /** The minute queue and the open bucket are those of the batch computation. */
  ghost predicate RollupMatches(s: Series, h: seq<Sample>)
  {
    s.minute == Last(Rollup(h), MINUTE_CAP) && s.bucket == OpenOf(h)
  }

  /** What one sample does to a series. */
  function Recorded(s: Series, x: Sample): Series
  {
    var now := MinuteOf(x);
    var entry := if s.bucket.Some? then s.bucket.value else Bucket(now, 0.0, 0);
    Series(Last(s.raw + [x], RAW_CAP),
           if entry.minute != now && entry.count > 0 then Last(s.minute + [Finished(entry)], MINUTE_CAP) else s.minute,
           Some(if entry.minute != now then Bucket(now, x.value, 1)
               else Bucket(now, entry.sum + x.value, entry.count + 1)))
  }

  /** The mean of a finished minute. */
  function Finished(b: Bucket): Sample
  {
    Sample(b.minute * 60, if b.count == 0 then 0.0 else b.sum / b.count as real)
  }

  function Get<T>(m: map<string, T>, key: string, default: T): T
  {
    if key in m then m[key] else default
  }

  function SeriesIn(raw: map<string, seq<Sample>>, minute: map<string, seq<Sample>>, buckets: map<string, Bucket>,
                    metric: string): Series
  {
    Series(Get(raw, metric, []), Get(minute, metric, []), if metric in buckets then Some(buckets[metric]) else None)
  }

  ghost predicate AllMatch(raw: map<string, seq<Sample>>, minute: map<string, seq<Sample>>,
                           buckets: map<string, Bucket>, history: map<string, seq<Sample>>)
  {
    forall metric :: MatchesBatch(SeriesIn(raw, minute, buckets, metric), Get(history, metric, []))
  }

  class MetricsStore {
    var raw: map<string, seq<Sample>>
    var minute: map<string, seq<Sample>>
    var buckets: map<string, Bucket>
    ghost var history: map<string, seq<Sample>>

    ghost function HistoryOf(metric: string): seq<Sample>
      reads this`history
    {
      Get(history, metric, [])
    }

    ghost function SeriesOf(metric: string): Series
      reads this`raw, this`minute, this`buckets
    {
      SeriesIn(raw, minute, buckets, metric)
    }

    /**
      For every metric: the raw ring is the end of the history, and as long as
      no minute has recurred the rollup is the batch one.
    */
    ghost predicate Valid()
      reads this
    {
      AllMatch(raw, minute, buckets, history)
    }

    constructor ()
      ensures Valid() && forall metric :: HistoryOf(metric) == []
    {
      raw, minute, buckets, history := map[], map[], map[], map[];
    }

    static method Trim(q: seq<Sample>, cap: nat) returns (r: seq<Sample>)
      ensures r == Last(q, cap)
    {
      r := q;
      while |r| > cap
        invariant |r| <= |q| && r == q[|q| - |r|..]
        invariant |r| >= cap || r == q
      {
        r := r[1..];
      }
    }

    method Record(metric: string, value: real, ts: nat)
      requires Valid()
      modifies this
      ensures Valid() && HistoryOf(metric) == old(HistoryOf(metric)) + [Sample(ts, value)]
      ensures KeepsNewest(SeriesOf(metric), HistoryOf(metric))
      ensures forall other | other != metric ::
                HistoryOf(other) == old(HistoryOf(other)) && SeriesOf(other) == old(SeriesOf(other))
    {
      hide AllMatch, Last, Finished, MatchesBatch, KeepsNewest;
      ghost var s, h, x := SeriesOf(metric), HistoryOf(metric), Sample(ts, value);
      ghost var raw0, minute0, buckets0, history0 := raw, minute, buckets, history;
      history := history[metric := h + [x]];
      var q := Get(raw, metric, []) + [Sample(ts, value)];
      q := Trim(q, RAW_CAP);
      raw := raw[metric := q];

      var now := ts / 60;
      var entry := Get(buckets, metric, Bucket(now, 0.0, 0));
      if entry.minute != now {
        if entry.count > 0 {
          var mean := Finished(entry);
          var mq := Get(minute, metric, []) + [mean];
          mq := Trim(mq, MINUTE_CAP);
          minute := minute[metric := mq];
        }
        buckets := buckets[metric := Bucket(now, value, 1)];
      } else {
        buckets := buckets[metric := Bucket(now, entry.sum + value, entry.count + 1)];
      }
      RecordKeepsAll(raw0, minute0, buckets0, history0, metric, x, raw, minute, buckets);
      hide SeriesIn, Recorded;
      MatchMeans(raw, minute, buckets, history, metric);
    }
  }

  /**
    The newest hour of samples at one a second; and, as long as no minute has
    recurred, the newest day of means and the minute still open.
  */
  ghost predicate KeepsNewest(s: Series, h: seq<Sample>)
  {
    && s.raw == (if |h| <= 3600 then h else h[|h| - 3600..])
    && (Contiguous(h) ==>
          && s.bucket == OpenOf(h)
          && var r := Rollup(h); s.minute == if |r| <= 1440 then r else r[|r| - 1440..])
  }

  lemma MatchMeans(raw: map<string, seq<Sample>>, minute: map<string, seq<Sample>>, buckets: map<string, Bucket>,
                   history: map<string, seq<Sample>>, metric: string)
    requires AllMatch(raw, minute, buckets, history)
    ensures KeepsNewest(SeriesIn(raw, minute, buckets, metric), Get(history, metric, []))
  {
    assert MatchesBatch(SeriesIn(raw, minute, buckets, metric), Get(history, metric, []));
    hide Rollup, OpenOf, Contiguous, SeriesIn;
  }

  /** Recording into one metric's series keeps every metric's. */
  lemma RecordKeepsAll(raw0: map<string, seq<Sample>>, minute0: map<string, seq<Sample>>, buckets0: map<string, Bucket>,
                       history0: map<string, seq<Sample>>, metric: string, x: Sample, raw: map<string, seq<Sample>>,
                       minute: map<string, seq<Sample>>, buckets: map<string, Bucket>)
    requires AllMatch(raw0, minute0, buckets0, history0)
    requires var r := Recorded(SeriesIn(raw0, minute0, buckets0, metric), x);
             && raw == raw0[metric := r.raw] && r.bucket.Some? && buckets == buckets0[metric := r.bucket.value]
             && (minute == minute0[metric := r.minute] || (minute == minute0 && r.minute == Get(minute0, metric, [])))
    ensures AllMatch(raw, minute, buckets, history0[metric := Get(history0, metric, []) + [x]])
    ensures forall other | other != metric ::
              SeriesIn(raw, minute, buckets, other) == SeriesIn(raw0, minute0, buckets0, other)
  {
    hide MatchesBatch, Recorded;
    var history := history0[metric := Get(history0, metric, []) + [x]];
    var s := SeriesIn(raw0, minute0, buckets0, metric);
    assert SeriesIn(raw, minute, buckets, metric) == Recorded(s, x);
    forall other ensures MatchesBatch(SeriesIn(raw, minute, buckets, other), Get(history, other, [])) {
      SampleKeepsMatch(s, Get(history0, metric, []), x);
      assert MatchesBatch(SeriesIn(raw0, minute0, buckets0, other), Get(history0, other, []));
    }
  }

  // ----- Why streaming and batch agree -----

  lemma {:induction false} NoneOf(h: seq<Sample>, minute: nat)
    requires forall i | 0 <= i < |h| :: MinuteOf(h[i]) != minute
    ensures SumOf(h, minute) == 0.0 && CountOf(h, minute) == 0
  {
    if h != [] { NoneOf(h[..|h| - 1], minute); }
  }

  lemma {:induction false} SomeOf(h: seq<Sample>, i: nat)
    requires i < |h|
    ensures CountOf(h, MinuteOf(h[i])) > 0
  {
    if i < |h| - 1 { SomeOf(h[..|h| - 1], i); }
  }

  lemma NonDecreasingInit(h: seq<Sample>, x: Sample)
    requires NonDecreasing(h + [x])
    ensures NonDecreasing(h)
  {
    assert (h + [x])[..|h|] == h;
  }

  ghost predicate Increasing(ms: seq<nat>)
  {
    forall i, j | 0 <= i < j < |ms| :: ms[i] < ms[j]
  }

  /** `y` added to a list of minutes that it is the latest of. */
  function Including(ms: seq<nat>, y: nat): seq<nat>
  {
    if y in ms then ms else ms + [y]
  }

  lemma IncludingLatest(ms: seq<nat>, y: nat)
    requires Increasing(ms) && (ms != [] ==> ms[|ms| - 1] <= y)
    ensures var r := Including(ms, y); Increasing(r) && r != [] && r[|r| - 1] == y
  {
    if k: nat :| k < |ms| && ms[k] == y {
      var top := |ms| - 1;
      assert ms[k] <= ms[top];
    }
  }

  lemma MinutesStep(h: seq<Sample>, x: Sample)
    ensures Minutes(h + [x]) == Including(Minutes(h), MinuteOf(x))
  {
    hide HasMinute, MinuteOf;
    assert (h + [x])[..|h|] == h;
  }

  /** Under a non-decreasing clock the minutes come in strictly increasing order, the open one last. */
  lemma {:induction false} MinutesIncrease(h: seq<Sample>)
    requires NonDecreasing(h)
    ensures Increasing(Minutes(h))
    ensures h != [] ==> Minutes(h) != [] && Minutes(h)[|Minutes(h)| - 1] == MinuteOf(h[|h| - 1])
  {
    if h != [] {
      var init, x := h[..|h| - 1], h[|h| - 1];
      assert h == init + [x];
      assert init != [] ==> MinuteOf(init[|init| - 1]) <= MinuteOf(x);
      NonDecreasingInit(init, x);
      MinutesIncrease(init);
      MinutesStep(init, x);
      hide Minutes, HasMinute, MinuteOf, NonDecreasing, Increasing, Including;
      NoMinutes();
      IncludingLatest(Minutes(init), MinuteOf(x));
    }
  }

  lemma NoMinutes()
    ensures Minutes([]) == []
  {
  }

  /** The rollup's timestamps strictly increase, and end before the open minute. */
  lemma RollupIncreases(h: seq<Sample>)
    requires NonDecreasing(h)
    ensures forall i, j | 0 <= i < j < |Rollup(h)| :: Rollup(h)[i].ts < Rollup(h)[j].ts
    ensures forall i | 0 <= i < |Rollup(h)| :: Rollup(h)[i].ts < MinuteOf(h[|h| - 1]) * 60
  {
    MinutesIncrease(h);
  }

  /** In order is one way of not recurring. */
  lemma NonDecreasingIsContiguous(h: seq<Sample>)
    requires NonDecreasing(h)
    ensures Contiguous(h)
  {
    forall i, j, k | 0 <= i <= j <= k < |h| && MinuteOf(h[i]) == MinuteOf(h[k])
      ensures MinuteOf(h[j]) == MinuteOf(h[i])
    {
      assert h[i].ts <= h[j].ts <= h[k].ts;
    }
  }

  /** One more sample must be of the open minute or of a new one. */
  lemma ContiguousStep(h: seq<Sample>, x: Sample)
    ensures Contiguous(h + [x]) <==>
              Contiguous(h) && (h == [] || MinuteOf(x) == MinuteOf(h[|h| - 1]) || !HasMinute(h, MinuteOf(x)))
  {
    hide MinuteOf;
    var all := h + [x];
    assert forall i | 0 <= i < |h| :: all[i] == h[i];
    assert all[|h|] == x;
    if Contiguous(all) && h != [] && HasMinute(h, MinuteOf(x)) {
      var i :| 0 <= i < |h| && MinuteOf(h[i]) == MinuteOf(x);
      assert MinuteOf(all[|h| - 1]) == MinuteOf(all[i]);
    }
    if Contiguous(all) {
      forall i, j, k | 0 <= i <= j <= k < |h| && MinuteOf(h[i]) == MinuteOf(h[k])
        ensures MinuteOf(h[j]) == MinuteOf(h[i])
      {
        assert MinuteOf(all[j]) == MinuteOf(all[i]);
      }
    }
    if Contiguous(h) && (h == [] || MinuteOf(x) == MinuteOf(h[|h| - 1]) || !HasMinute(h, MinuteOf(x))) {
      forall i, j, k | 0 <= i <= j <= k < |all| && MinuteOf(all[i]) == MinuteOf(all[k])
        ensures MinuteOf(all[j]) == MinuteOf(all[i])
      {
        if k < |h| {
          assert MinuteOf(h[j]) == MinuteOf(h[i]);
        } else if i <= j < |h| {
          assert HasMinute(h, MinuteOf(x));
          assert MinuteOf(h[i]) == MinuteOf(h[|h| - 1]);
        }
      }
    }
  }

  ghost predicate Distinct(ms: seq<nat>)
  {
    forall i, j | 0 <= i < j < |ms| :: ms[i] != ms[j]
  }

  lemma IncludingDistinct(ms: seq<nat>, y: nat)
    requires Distinct(ms)
    ensures Distinct(Including(ms, y))
  {
  }

  /** The minutes of a history are distinct, and when none recurs the last one is open. */
  lemma {:induction false} MinutesEndOpen(h: seq<Sample>)
    ensures Distinct(Minutes(h))
    ensures h != [] && Contiguous(h) ==> Minutes(h) != [] && Minutes(h)[|Minutes(h)| - 1] == MinuteOf(h[|h| - 1])
  {
    hide Minutes, HasMinute, MinuteOf, Contiguous, Distinct;
    if h == [] {
      NoMinutes();
      NothingDistinct();
    } else {
      var init, x := h[..|h| - 1], h[|h| - 1];
      assert h == init + [x];
      MinutesEndOpen(init);
      ContiguousStep(init, x);
      MinutesStep(init, x);
      NoMinutes();
      IncludingDistinct(Minutes(init), MinuteOf(x));
    }
  }

  lemma NothingDistinct()
    ensures Distinct([])
  {
  }

  /** A sample in the open minute changes no finished mean. */
  lemma SameMinute(h: seq<Sample>, x: Sample)
    requires h != [] && Contiguous(h + [x]) && MinuteOf(x) == MinuteOf(h[|h| - 1])
    ensures Rollup(h + [x]) == Rollup(h)
  {
    hide MinuteOf, Contiguous, SumOf, CountOf, Minutes, Finished;
    var all, ms := h + [x], Minutes(h);
    ContiguousStep(h, x);
    MinutesStep(h, x);
    MinutesEndOpen(h);
    assert ms[|ms| - 1] in ms && Minutes(all) == ms;
    forall i | 0 <= i < |ms| - 1 ensures MeanOf(all, ms[i]) == MeanOf(h, ms[i]) {
      TotalsAppend(h, x, ms[i]);
    }
  }

  /** A sample in another minute finishes the open one. */
  lemma NextMinute(h: seq<Sample>, x: Sample)
    requires h != [] && Contiguous(h + [x]) && MinuteOf(x) != MinuteOf(h[|h| - 1])
    ensures Rollup(h + [x]) == Rollup(h) + [MeanOf(h, MinuteOf(h[|h| - 1]))]
    ensures forall i | 0 <= i < |h| :: MinuteOf(h[i]) != MinuteOf(x)
  {
    hide MinuteOf, Contiguous, SumOf, CountOf, Minutes, Finished;
    var all, ms := h + [x], Minutes(h);
    ContiguousStep(h, x);
    MinutesStep(h, x);
    MinutesEndOpen(h);
    assert MinuteOf(x) !in ms && Minutes(all) == ms + [MinuteOf(x)];
    forall i | 0 <= i < |ms| ensures MeanOf(all, ms[i]) == MeanOf(h, ms[i]) {
      assert ms[i] in ms;
      TotalsAppend(h, x, ms[i]);
    }
  }

  lemma RecordedRaw(s: Series, x: Sample)
    ensures Recorded(s, x).raw == Last(s.raw + [x], RAW_CAP)
  {
    hide Last, Finished, MinuteOf;
  }

  lemma RecordedRest(s: Series, t: Series, x: Sample)
    requires s.minute == t.minute && s.bucket == t.bucket
    ensures Recorded(s, x).minute == Recorded(t, x).minute && Recorded(s, x).bucket == Recorded(t, x).bucket
  {
    hide Last, Finished, MinuteOf;
  }

  /** One recorded sample, streaming, is one more sample in the batch computation. */
  lemma SampleKeepsMatch(s: Series, h: seq<Sample>, x: Sample)
    requires MatchesBatch(s, h)
    ensures MatchesBatch(Recorded(s, x), h + [x])
  {
    hide Last, Finished, Rollup, SumOf, CountOf, Recorded, Contiguous;
    LastAppend(h, x, RAW_CAP);
    RecordedRaw(s, x);
    RecordedRest(s, Series([], s.minute, s.bucket), x);
    if Contiguous(h + [x]) {
      ContiguousStep(h, x);
      SampleKeepsRollup(h, x);
    }
  }

  ghost predicate RollsOn(h: seq<Sample>, x: Sample)
  {
    var s := Recorded(Series([], Last(Rollup(h), MINUTE_CAP), OpenOf(h)), x);
    s.minute == Last(Rollup(h + [x]), MINUTE_CAP) && s.bucket == OpenOf(h + [x])
  }

  lemma SampleKeepsRollup(h: seq<Sample>, x: Sample)
    requires Contiguous(h + [x])
    ensures RollsOn(h, x)
  {
    hide RollsOn, Rollup;
    if h == [] {
      FirstSample(x);
    } else if MinuteOf(h[|h| - 1]) == MinuteOf(x) {
      OpenMinute(h, x);
    } else {
      LaterMinute(h, x);
    }
  }

  lemma OpenMinute(h: seq<Sample>, x: Sample)
    requires h != [] && Contiguous(h + [x]) && MinuteOf(h[|h| - 1]) == MinuteOf(x)
    ensures RollsOn(h, x)
  {
    hide Last, Rollup, Contiguous, SumOf, CountOf, MinuteOf, Recorded;
    var m := MinuteOf(x);
    TotalsAppend(h, x, m);
    SameMinute(h, x);
    RecordedInOpenMinute(Series([], Last(Rollup(h), MINUTE_CAP), OpenOf(h)), Bucket(m, SumOf(h, m), CountOf(h, m)), x);
  }

  lemma RecordedInOpenMinute(s: Series, b: Bucket, x: Sample)
    requires s.bucket == Some(b) && b.minute == MinuteOf(x)
    ensures Recorded(s, x).minute == s.minute
    ensures Recorded(s, x).bucket == Some(Bucket(b.minute, b.sum + x.value, b.count + 1))
  {
  }

  lemma TotalsAppend(h: seq<Sample>, x: Sample, minute: nat)
    ensures SumOf(h + [x], minute) == SumOf(h, minute) + if MinuteOf(x) == minute then x.value else 0.0
    ensures CountOf(h + [x], minute) == CountOf(h, minute) + if MinuteOf(x) == minute then 1 else 0
  {
    assert (h + [x])[..|h|] == h;
  }

  lemma LaterMinute(h: seq<Sample>, x: Sample)
    requires h != [] && Contiguous(h + [x]) && MinuteOf(h[|h| - 1]) != MinuteOf(x)
    ensures RollsOn(h, x)
  {
    hide Last, Rollup, Contiguous, SumOf, CountOf;
    var open := MinuteOf(h[|h| - 1]);
    TotalsAppend(h, x, MinuteOf(x));
    NextMinute(h, x);
    NoneOf(h, MinuteOf(x));
    SomeOf(h, |h| - 1);
    LastAppend(Rollup(h), MeanOf(h, open), MINUTE_CAP);
  }

  lemma FirstSample(x: Sample)
    ensures RollsOn([], x)
  {
    hide Last, Finished;
    assert [] + [x] == [x] && [x][..0] == [];
    assert Rollup([]) == [] && Rollup([x]) == [];
    assert SumOf([x], MinuteOf(x)) == x.value && CountOf([x], MinuteOf(x)) == 1;
  }

  // ----- Exactly when they agree -----

  /** What streaming a whole history leaves. */
  function Streamed(h: seq<Sample>): Series
  {
    if h == [] then Series([], [], None) else Recorded(Streamed(h[..|h| - 1]), h[|h| - 1])
  }

  lemma {:induction false} StreamedMatches(h: seq<Sample>)
    ensures MatchesBatch(Streamed(h), h)
  {
    if h == [] {
      NoMinutes();
    } else {
      StreamedMatches(h[..|h| - 1]);
      SampleKeepsMatch(Streamed(h[..|h| - 1]), h[..|h| - 1], h[|h| - 1]);
      assert h == h[..|h| - 1] + [h[|h| - 1]];
    }
  }

  /** The first sample of a minute that recurs opens a bucket that the batch computation does not have. */
  lemma RecurrenceDiffers(h: seq<Sample>, x: Sample)
    requires Contiguous(h) && !Contiguous(h + [x])
    ensures Streamed(h + [x]).bucket != OpenOf(h + [x])
  {
    hide MinuteOf, Contiguous, Rollup, Last, Finished, SumOf, CountOf, MeanOf;
    ContiguousStep(h, x);
    StreamedMatches(h);
    assert (h + [x])[..|h|] == h && (h + [x])[|h|] == x;
    var i :| 0 <= i < |h| && MinuteOf(h[i]) == MinuteOf(x);
    SomeOf(h, i);
    TotalsAppend(h, x, MinuteOf(x));
  }

  /** Streaming agrees with the batch computation after every sample if and only if no minute recurs. */
  lemma {:induction false} RollupMatchesIff(h: seq<Sample>)
    ensures (forall k | 0 <= k <= |h| :: RollupMatches(Streamed(h[..k]), h[..k])) <==> Contiguous(h)
  {
    hide MinuteOf, RollupMatches;
    if Contiguous(h) {
      forall k | 0 <= k <= |h| ensures RollupMatches(Streamed(h[..k]), h[..k]) {
        assert Contiguous(h[..k]);
        StreamedMatches(h[..k]);
      }
    } else {
      FirstRecurrence(h);
    }
  }

  lemma {:induction false} FirstRecurrence(h: seq<Sample>)
    requires !Contiguous(h)
    ensures exists k :: 0 <= k <= |h| && !RollupMatches(Streamed(h[..k]), h[..k])
  {
    var init, x := h[..|h| - 1], h[|h| - 1];
    assert h == init + [x] && h[..|h|] == h;
    if Contiguous(init) {
      RecurrenceDiffers(init, x);
      assert !RollupMatches(Streamed(h[..|h|]), h[..|h|]);
    } else {
      FirstRecurrence(init);
      var k :| 0 <= k <= |init| && !RollupMatches(Streamed(init[..k]), init[..k]);
      assert init[..k] == h[..k];
    }
  }
}

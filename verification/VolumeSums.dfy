/** What accumulation computes: exact integer sums, whatever the order of the logs. */
module VolumeSums {
  import opened Prelude
  import opened Uint
  import opened AbiWords
  import opened VolumeTerms
  import opened Journals
  import opened Volume
  import BigEndian

  /** What one log adds to the volume of slot `i`. */
  function Share(t: Terms, mask: byte, log: Log, i: nat): nat
    requires Countable(t)
  {
    match Qualify(t, log)
    case Ok(Some(s)) => if s.entrant == i && Covers(mask, i) then WordValue(s.quote) else 0
    case _ => 0
  }

  /** Whether one log adds to the count of slot `i`. */
  function Hit(t: Terms, mask: byte, log: Log, i: nat): nat
    requires Countable(t)
  {
    match Qualify(t, log)
    case Ok(Some(s)) => if s.entrant == i && Covers(mask, i) then 1 else 0
    case _ => 0
  }

  function VolumeSum(t: Terms, mask: byte, logs: seq<Log>, i: nat): nat
    requires Countable(t)
  {
    if logs == [] then 0
    else VolumeSum(t, mask, logs[..|logs| - 1], i) + Share(t, mask, logs[|logs| - 1], i)
  }

  function CountSum(t: Terms, mask: byte, logs: seq<Log>, i: nat): nat
    requires Countable(t)
  {
    if logs == [] then 0
    else CountSum(t, mask, logs[..|logs| - 1], i) + Hit(t, mask, logs[|logs| - 1], i)
  }

  /** No log of a pinned pool is malformed. */
  ghost predicate WellFormedLogs(t: Terms, logs: seq<Log>)
    requires Countable(t)
  {
    forall k :: 0 <= k < |logs| ==> !Malformed(t, logs[k])
  }

  /** Every running sum stays a 256-bit number. */
  predicate SumsFit(t: Terms, mask: byte, start: Totals, logs: seq<Log>)
    requires Countable(t) && start.Sized()
  {
    forall i :: 0 <= i < 8 ==> SlotFits(t, mask, start, logs, i)
  }

  predicate SlotFits(t: Terms, mask: byte, start: Totals, logs: seq<Log>, i: nat)
    requires Countable(t) && start.Sized() && i < 8
  {
    && WordValue(start.volumes[i]) + VolumeSum(t, mask, logs, i) < Limit256()
    && WordValue(start.counts[i]) + CountSum(t, mask, logs, i) < Limit256()
  }

  /** The totals are the start plus the sums. */
  predicate Sums(t: Terms, mask: byte, start: Totals, logs: seq<Log>, totals: Totals)
    requires Countable(t) && start.Sized() && totals.Sized()
  {
    forall i :: 0 <= i < 8 ==> SlotSum(t, mask, start, logs, totals, i)
  }

  predicate SlotSum(t: Terms, mask: byte, start: Totals, logs: seq<Log>, totals: Totals, i: nat)
    requires Countable(t) && start.Sized() && totals.Sized() && i < 8
  {
    && WordValue(totals.volumes[i]) == WordValue(start.volumes[i]) + VolumeSum(t, mask, logs, i)
    && WordValue(totals.counts[i]) == WordValue(start.counts[i]) + CountSum(t, mask, logs, i)
  }

  // ----- one log -----

  /** Recording one log succeeds exactly when it is well formed and its additions fit, and adds
      exactly its shares. */
  lemma RecordLogAdds(t: Terms, mask: byte, totals: Totals, log: Log)
    requires Countable(t) && totals.Sized()
    ensures RecordLog(t, mask, totals, log).Ok? <==>
            !Malformed(t, log) && forall i :: 0 <= i < 8 ==> LogFits(t, mask, totals, log, i)
    ensures RecordLog(t, mask, totals, log).Ok? ==>
              forall i :: 0 <= i < 8 ==> LogAdded(t, mask, totals, log, RecordLog(t, mask, totals, log).value, i)
  {
    QualifyFails(t, log);
    hide Malformed;
    hide Qualify;
    hide Covers;
    if Qualify(t, log).Ok? {
      var q := Qualify(t, log).value;
      if q.Some? && Covers(mask, q.value.entrant) {
        CoveredAdds(t, mask, totals, log, q.value);
      } else {
        NothingAdds(t, mask, totals, log);
      }
    }
  }

  lemma NothingAdds(t: Terms, mask: byte, totals: Totals, log: Log)
    requires Countable(t) && totals.Sized()
    requires forall i :: 0 <= i < 8 ==> Share(t, mask, log, i) == 0 == Hit(t, mask, log, i)
    ensures forall i :: 0 <= i < 8 ==> LogFits(t, mask, totals, log, i) && LogAdded(t, mask, totals, log, totals, i)
  {
    hide Share;
    hide Hit;
    forall i | 0 <= i < 8 ensures LogFits(t, mask, totals, log, i) {
      ValuesFit(totals, i);
    }
  }

  lemma CoveredAdds(t: Terms, mask: byte, totals: Totals, log: Log, s: Swap)
    requires Countable(t) && totals.Sized() && s.entrant < t.identity.entrantCount
    requires Qualify(t, log) == Ok(Some(s)) && Covers(mask, s.entrant)
    ensures RecordLog(t, mask, totals, log).Ok? <==> forall i :: 0 <= i < 8 ==> LogFits(t, mask, totals, log, i)
    ensures RecordLog(t, mask, totals, log).Ok? ==>
              forall i :: 0 <= i < 8 ==> LogAdded(t, mask, totals, log, RecordLog(t, mask, totals, log).value, i)
  {
    hide Qualify;
    hide Covers;
    hide Accumulate;
    AccumulateAdds(totals.volumes[s.entrant], totals.counts[s.entrant], s.quote);
    forall i | 0 <= i < 8
      ensures i != s.entrant ==> LogFits(t, mask, totals, log, i)
    {
      ValuesFit(totals, i);
    }
    hide WordValue;
    hide Limit256;
    assert LogFits(t, mask, totals, log, s.entrant) <==>
           Accumulate(totals.volumes[s.entrant], totals.counts[s.entrant], s.quote).Ok?;
  }

  predicate LogFits(t: Terms, mask: byte, totals: Totals, log: Log, i: nat)
    requires Countable(t) && totals.Sized() && i < 8
  {
    && WordValue(totals.volumes[i]) + Share(t, mask, log, i) < Limit256()
    && WordValue(totals.counts[i]) + Hit(t, mask, log, i) < Limit256()
  }

  predicate LogAdded(t: Terms, mask: byte, totals: Totals, log: Log, next: Totals, i: nat)
    requires Countable(t) && totals.Sized() && next.Sized() && i < 8
  {
    && WordValue(next.volumes[i]) == WordValue(totals.volumes[i]) + Share(t, mask, log, i)
    && WordValue(next.counts[i]) == WordValue(totals.counts[i]) + Hit(t, mask, log, i)
  }

  lemma ValuesFit(totals: Totals, i: nat)
    requires totals.Sized() && i < 8
    ensures WordValue(totals.volumes[i]) < Limit256() && WordValue(totals.counts[i]) < Limit256()
  {
  }

  lemma AccumulateAdds(volume: Word, count: Word, quote: Word)
    ensures var r := Accumulate(volume, count, quote);
            && (r.Ok? <==> WordValue(volume) + WordValue(quote) < Limit256() && WordValue(count) + 1 < Limit256())
            && (r.Ok? ==> WordValue(r.value.0) == WordValue(volume) + WordValue(quote)
                          && WordValue(r.value.1) == WordValue(count) + 1)
  {
    hide WordValue;
    hide WordOf;
    OneFits();
    ValueOfWord(1);
    SumValue(volume, quote);
    SumValue(count, UintWord(1));
    hide Limit256;
  }

  lemma OneFits()
    ensures 1 < Limit256()
  {
    BigEndian.PowersOf256();
    BigEndian.PowMonotone(1, 32);
  }

  lemma SumValue(a: Word, b: Word)
    ensures CheckedSum(a, b).Some? <==> WordValue(a) + WordValue(b) < Limit256()
    ensures CheckedSum(a, b).Some? ==> WordValue(CheckedSum(a, b).value) == WordValue(a) + WordValue(b)
  {
    if WordValue(a) + WordValue(b) < Limit256() {
      ValueOfWord(WordValue(a) + WordValue(b));
    }
  }

  // ----- all logs -----

  /** Recording a list of logs succeeds exactly when every log is well formed and every sum fits in
      256 bits; the totals are then the exact sums. */
  lemma {:induction false} TotalsAreSums(t: Terms, mask: byte, start: Totals, logs: seq<Log>)
    requires Countable(t) && start.Sized()
    ensures RecordAll(t, mask, start, logs).Ok? <==> WellFormedLogs(t, logs) && SumsFit(t, mask, start, logs)
    ensures RecordAll(t, mask, start, logs).Ok? ==>
              Sums(t, mask, start, logs, RecordAll(t, mask, start, logs).value)
  {
    hide Malformed;
    hide Qualify;
    hide WordValue;
    hide Limit256;
    hide RecordLog;
    hide Share;
    hide Hit;
    if logs == [] {
      forall i | 0 <= i < 8 ensures SlotFits(t, mask, start, logs, i) {
        ValuesFit(start, i);
      }
    } else {
      var front, last := logs[..|logs| - 1], logs[|logs| - 1];
      TotalsAreSums(t, mask, start, front);
      SumsStep(t, mask, start, front, last);
      assert logs == front + [last];
      FormedStep(t, front, last);
    }
  }

  lemma FormedStep(t: Terms, front: seq<Log>, last: Log)
    requires Countable(t)
    ensures WellFormedLogs(t, front + [last]) <==> WellFormedLogs(t, front) && !Malformed(t, last)
  {
    hide Malformed;
    var logs := front + [last];
    assert logs[|front|] == last;
    if WellFormedLogs(t, logs) {
      forall k | 0 <= k < |front| ensures !Malformed(t, front[k]) {
        assert logs[k] == front[k];
      }
    }
  }

  lemma SumsStep(t: Terms, mask: byte, start: Totals, front: seq<Log>, last: Log)
    requires Countable(t) && start.Sized()
    requires var r := RecordAll(t, mask, start, front);
             && (r.Ok? <==> WellFormedLogs(t, front) && SumsFit(t, mask, start, front))
             && (r.Ok? ==> Sums(t, mask, start, front, r.value))
    ensures SumsFit(t, mask, start, front + [last]) ==> SumsFit(t, mask, start, front)
    ensures RecordAll(t, mask, start, front).Ok? ==>
              var before := RecordAll(t, mask, start, front).value;
              var r := RecordLog(t, mask, before, last);
              && (r.Ok? <==> !Malformed(t, last) && SumsFit(t, mask, start, front + [last]))
              && (r.Ok? ==> Sums(t, mask, start, front + [last], r.value))
  {
    hide Malformed;
    hide Qualify;
    hide WordValue;
    hide Limit256;
    hide RecordLog;
    hide RecordAll;
    hide Share;
    hide Hit;
    forall i: nat ensures VolumeSum(t, mask, front + [last], i) == VolumeSum(t, mask, front, i) + Share(t, mask, last, i)
                     && CountSum(t, mask, front + [last], i) == CountSum(t, mask, front, i) + Hit(t, mask, last, i) {
      SumStep(t, mask, front, last, i);
    }
    hide VolumeSum;
    hide CountSum;
    assert SumsFit(t, mask, start, front + [last]) ==> SumsFit(t, mask, start, front) by {
      assert forall i :: 0 <= i < 8 && SlotFits(t, mask, start, front + [last], i) ==> SlotFits(t, mask, start, front, i);
    }
    if RecordAll(t, mask, start, front).Ok? {
      var before := RecordAll(t, mask, start, front).value;
      RecordLogAdds(t, mask, before, last);
      forall i | 0 <= i < 8
        ensures LogFits(t, mask, before, last, i) <==> SlotFits(t, mask, start, front + [last], i)
      {
        assert SlotSum(t, mask, start, front, before, i);
      }
      var r := RecordLog(t, mask, before, last);
      if r.Ok? {
        forall i | 0 <= i < 8 ensures SlotSum(t, mask, start, front + [last], r.value, i) {
          assert SlotSum(t, mask, start, front, before, i) && LogAdded(t, mask, before, last, r.value, i);
        }
      }
    }
  }

  lemma SumStep(t: Terms, mask: byte, front: seq<Log>, last: Log, i: nat)
    requires Countable(t)
    ensures VolumeSum(t, mask, front + [last], i) == VolumeSum(t, mask, front, i) + Share(t, mask, last, i)
    ensures CountSum(t, mask, front + [last], i) == CountSum(t, mask, front, i) + Hit(t, mask, last, i)
  {
    assert (front + [last])[..|front|] == front;
  }

  // ----- order and concatenation -----

  lemma {:induction false} SumsConcat(t: Terms, mask: byte, a: seq<Log>, b: seq<Log>, i: nat)
    requires Countable(t)
    ensures VolumeSum(t, mask, a + b, i) == VolumeSum(t, mask, a, i) + VolumeSum(t, mask, b, i)
    ensures CountSum(t, mask, a + b, i) == CountSum(t, mask, a, i) + CountSum(t, mask, b, i)
  {
    hide Share;
    hide Hit;
    if b == [] {
      assert a + b == a;
    } else {
      SumsConcat(t, mask, a, b[..|b| - 1], i);
      assert (a + b)[..|a + b| - 1] == a + b[..|b| - 1];
    }
  }

  lemma {:induction false} SumsOfPermutation(t: Terms, mask: byte, a: seq<Log>, b: seq<Log>, i: nat)
    requires Countable(t) && multiset(a) == multiset(b)
    ensures VolumeSum(t, mask, a, i) == VolumeSum(t, mask, b, i)
    ensures CountSum(t, mask, a, i) == CountSum(t, mask, b, i)
    decreases |a|
  {
    hide Share;
    hide Hit;
    if a == [] {
      assert b == [] by {
        assert |multiset(b)| == 0;
      }
    } else {
      var front, last := a[..|a| - 1], a[|a| - 1];
      assert a == front + [last];
      assert last in multiset(b);
      var k :| 0 <= k < |b| && b[k] == last;
      var left, right := b[..k], b[k + 1..];
      assert b == left + ([last] + right);
      RemoveOne(front, last, left, right);
      SumsOfPermutation(t, mask, front, left + right, i);
      SumsConcat(t, mask, left, [last] + right, i);
      SumsConcat(t, mask, [last], right, i);
      SumsConcat(t, mask, left, right, i);
      SumStep(t, mask, [], last, i);
      assert [] + [last] == [last];
    }
  }

  lemma RemoveOne(front: seq<Log>, last: Log, left: seq<Log>, right: seq<Log>)
    requires multiset(front + [last]) == multiset(left + ([last] + right))
    ensures multiset(front) == multiset(left + right)
  {
    assert multiset(front + [last]) == multiset(front) + multiset{last};
    assert multiset(left + ([last] + right)) == multiset(left) + (multiset{last} + multiset(right));
    CancelOne(multiset(front), multiset(left) + multiset(right), last);
  }

  lemma CancelOne(m: multiset<Log>, n: multiset<Log>, x: Log)
    requires m + multiset{x} == n + multiset{x}
    ensures m == n
  {
    assert m + multiset{x} - multiset{x} == m;
    assert n + multiset{x} - multiset{x} == n;
  }

  /** The order of the logs decides neither success nor the totals. */
  lemma OrderIndependent(t: Terms, mask: byte, start: Totals, a: seq<Log>, b: seq<Log>)
    requires Countable(t) && start.Sized() && multiset(a) == multiset(b)
    ensures RecordAll(t, mask, start, a).Ok? <==> RecordAll(t, mask, start, b).Ok?
    ensures RecordAll(t, mask, start, a).Ok? ==> RecordAll(t, mask, start, a) == RecordAll(t, mask, start, b)
  {
    hide Qualify;
    hide RecordAll;
    hide VolumeSum;
    hide CountSum;
    TotalsAreSums(t, mask, start, a);
    TotalsAreSums(t, mask, start, b);
    forall i | 0 <= i < 8
      ensures VolumeSum(t, mask, a, i) == VolumeSum(t, mask, b, i) && CountSum(t, mask, a, i) == CountSum(t, mask, b, i)
    {
      SumsOfPermutation(t, mask, a, b, i);
    }
    FormedPermutation(t, a, b);
    FormedPermutation(t, b, a);
    hide WellFormedLogs;
    forall i | 0 <= i < 8 ensures SlotFits(t, mask, start, a, i) <==> SlotFits(t, mask, start, b, i) {
    }
    assert SumsFit(t, mask, start, a) <==> SumsFit(t, mask, start, b);
    if RecordAll(t, mask, start, a).Ok? {
      SameSums(t, mask, start, a, b, RecordAll(t, mask, start, a).value, RecordAll(t, mask, start, b).value);
    }
  }

  lemma FormedPermutation(t: Terms, a: seq<Log>, b: seq<Log>)
    requires Countable(t) && multiset(a) == multiset(b)
    ensures WellFormedLogs(t, a) ==> WellFormedLogs(t, b)
  {
    hide Malformed;
    forall k | 0 <= k < |b| ensures b[k] in a {
      assert b[k] in multiset(a);
    }
  }

  lemma SameSums(t: Terms, mask: byte, start: Totals, a: seq<Log>, b: seq<Log>, x: Totals, y: Totals)
    requires Countable(t) && start.Sized() && x.Sized() && y.Sized()
    requires Sums(t, mask, start, a, x) && Sums(t, mask, start, b, y)
    requires forall i :: 0 <= i < 8 ==>
               VolumeSum(t, mask, a, i) == VolumeSum(t, mask, b, i) && CountSum(t, mask, a, i) == CountSum(t, mask, b, i)
    ensures x == y
  {
    hide WordValue;
    hide VolumeSum;
    hide CountSum;
    forall i | 0 <= i < 8 ensures x.volumes[i] == y.volumes[i] && x.counts[i] == y.counts[i] {
      assert SlotSum(t, mask, start, a, x, i) && SlotSum(t, mask, start, b, y, i);
      SameValue(x.volumes[i], y.volumes[i]);
      SameValue(x.counts[i], y.counts[i]);
    }
  }

  lemma SameValue(a: Word, b: Word)
    requires WordValue(a) == WordValue(b)
    ensures a == b
  {
    WordOfValue(a);
    WordOfValue(b);
  }

  /** Recording two lists one after the other is recording their concatenation. */
  lemma {:induction false} RecordConcat(t: Terms, mask: byte, start: Totals, a: seq<Log>, b: seq<Log>)
    requires Countable(t) && start.Sized()
    ensures RecordAll(t, mask, start, a + b) ==
            match RecordAll(t, mask, start, a)
            case Ok(middle) => RecordAll(t, mask, middle, b)
            case Err(e) => Err(e)
  {
    hide RecordLog;
    if b == [] {
      assert a + b == a;
    } else {
      RecordConcat(t, mask, start, a, b[..|b| - 1]);
      assert (a + b)[..|a + b| - 1] == a + b[..|b| - 1];
    }
  }

  /** A slot outside the mask never changes. */
  lemma {:induction false} UncoveredStay(t: Terms, mask: byte, logs: seq<Log>, i: nat)
    requires Countable(t) && !Covers(mask, i)
    ensures VolumeSum(t, mask, logs, i) == 0 == CountSum(t, mask, logs, i)
  {
    if logs != [] {
      UncoveredStay(t, mask, logs[..|logs| - 1], i);
    }
  }
}

/**
  What to drop when the queue is full: age first, then samples, then audits only when
  there are no samples left to drop.
 */
module QueuePolicy {
  import opened Basics

  datatype Class = SampleClass | AuditClass

  datatype Limits = Limits(maxEvents: int, maxBytes: int, maxAgeDays: int, auditRetentionDays: int)

  /** The queue's shape, as the store can cheaply report it. */
  datatype Census = Census(
    sampleCount: nat,
    sampleBytes: nat,
    auditCount: nat,
    auditBytes: nat,
    oldestSampleAt: Option<Instant>,
    oldestAuditAt: Option<Instant>)
  {
    function TotalCount(): nat {
      sampleCount + auditCount
    }

    function TotalBytes(): nat {
      sampleBytes + auditBytes
    }
  }

  datatype Reason = MaxAgeDays | AuditRetentionDays | MaxBytes | MaxEvents | AuditFloor

  /** Delete the oldest `rows` of a class, or everything in it queued before `olderThan`. */
  datatype Eviction = Eviction(cls: Class, rows: nat, olderThan: Option<Instant>, reason: Reason)

  /** Evict down to 95 % of a cap, truncated toward zero. */
  function Target(cap: int): int {
    if cap >= 0 then cap * 95 / 100 else -(-cap * 95 / 100)
  }

  function CeilDiv(a: nat, b: nat): nat
    requires b > 0
  {
    (a + b - 1) / b
  }

  function Mean(bytes: nat, count: nat): (m: nat)
    ensures m >= 1
  {
    if count > 0 && bytes / count >= 1 then bytes / count else 1
  }

  function Cutoff(now: Instant, days: int): Instant {
    now - days * DAY
  }

  function AgeEvictions(census: Census, limits: Limits, now: Instant): seq<Eviction> {
    var samples, audits := Cutoff(now, limits.maxAgeDays), Cutoff(now, limits.auditRetentionDays);
    (if census.oldestSampleAt.Some? && census.oldestSampleAt.value < samples
     then [Eviction(SampleClass, 0, Some(samples), MaxAgeDays)] else [])
    + (if census.oldestAuditAt.Some? && census.oldestAuditAt.value < audits
       then [Eviction(AuditClass, 0, Some(audits), AuditRetentionDays)] else [])
  }

  predicate OverCap(census: Census, limits: Limits) {
    census.TotalCount() > limits.maxEvents || census.TotalBytes() > limits.maxBytes
  }

  /** How many rows, and how many bytes, the headroom target asks to shed. */
  function OverCount(census: Census, limits: Limits): nat {
    if OverCap(census, limits) then Max(0, census.TotalCount() - Target(limits.maxEvents)) else 0
  }

  function OverBytes(census: Census, limits: Limits): nat {
    if OverCap(census, limits) then Max(0, census.TotalBytes() - Target(limits.maxBytes)) else 0
  }

  function ByBytes(overBytes: nat, mean: nat): nat
    requires mean > 0
  {
    if overBytes > 0 then CeilDiv(overBytes, mean) else 0
  }

  function FromSamples(census: Census, limits: Limits): nat {
    var mean := Mean(census.sampleBytes, census.sampleCount);
    Min(census.sampleCount, Max(OverCount(census, limits), ByBytes(OverBytes(census, limits), mean)))
  }

  /** What the samples could not cover. */
  function CountLeft(census: Census, limits: Limits): nat {
    OverCount(census, limits) - Min(OverCount(census, limits), FromSamples(census, limits))
  }

  function BytesLeft(census: Census, limits: Limits): nat {
    var shed := FromSamples(census, limits) * Mean(census.sampleBytes, census.sampleCount);
    OverBytes(census, limits) - Min(OverBytes(census, limits), shed)
  }

  function FromAudits(census: Census, limits: Limits): nat {
    var mean := Mean(census.auditBytes, census.auditCount);
    Min(census.auditCount, Max(CountLeft(census, limits), ByBytes(BytesLeft(census, limits), mean)))
  }

  function SampleReason(census: Census, limits: Limits): Reason {
    var byBytes := ByBytes(OverBytes(census, limits), Mean(census.sampleBytes, census.sampleCount));
    if OverBytes(census, limits) > 0 && byBytes >= OverCount(census, limits) then MaxBytes else MaxEvents
  }

  function SizeEvictions(census: Census, limits: Limits): seq<Eviction> {
    (if FromSamples(census, limits) > 0
     then [Eviction(SampleClass, FromSamples(census, limits), None, SampleReason(census, limits))] else [])
    + (if FromAudits(census, limits) > 0
       then [Eviction(AuditClass, FromAudits(census, limits), None, AuditFloor)] else [])
  }

  function PlanOf(census: Census, limits: Limits, now: Instant): seq<Eviction> {
    AgeEvictions(census, limits, now) + SizeEvictions(census, limits)
  }

  method PlanAges(census: Census, limits: Limits, now: Instant) returns (evictions: seq<Eviction>)
    ensures evictions == AgeEvictions(census, limits, now)
  {
    evictions := [];
    if census.oldestSampleAt.Some? {
      var cutoff := now - limits.maxAgeDays * DAY;
      if census.oldestSampleAt.value < cutoff {
        evictions := evictions + [Eviction(SampleClass, 0, Some(cutoff), MaxAgeDays)];
      }
    }
    if census.oldestAuditAt.Some? {
      var cutoff := now - limits.auditRetentionDays * DAY;
      if census.oldestAuditAt.value < cutoff {
        evictions := evictions + [Eviction(AuditClass, 0, Some(cutoff), AuditRetentionDays)];
      }
    }
  }

  method Plan(census: Census, limits: Limits, now: Instant) returns (evictions: seq<Eviction>)
    ensures evictions == PlanOf(census, limits, now)
  {
    evictions := PlanAges(census, limits, now);
    ghost var aged := evictions;

    // Fires above the cap and aims below it.
    var overCap := census.TotalCount() > limits.maxEvents || census.TotalBytes() > limits.maxBytes;
    var overCount: nat := if overCap then Max(0, census.TotalCount() - Target(limits.maxEvents)) else 0;
    var overBytes: nat := if overCap then Max(0, census.TotalBytes() - Target(limits.maxBytes)) else 0;

    if overCount > 0 || overBytes > 0 {
      var sampleMean := Mean(census.sampleBytes, census.sampleCount);
      var byRows := overCount;
      var byBytes := if overBytes > 0 then CeilDiv(overBytes, sampleMean) else 0;
      var fromSamples: nat := Min(census.sampleCount, Max(byRows, byBytes));
      assert fromSamples == FromSamples(census, limits);
      if fromSamples > 0 {
        evictions := evictions + [Eviction(SampleClass, fromSamples, None,
          if overBytes > 0 && byBytes >= byRows then MaxBytes else MaxEvents)];
        overCount := overCount - Min(overCount, fromSamples);
        overBytes := overBytes - Min(overBytes, fromSamples * sampleMean);
      }
      assert overCount == CountLeft(census, limits) && overBytes == BytesLeft(census, limits);
      // Audits pay for what samples could not.
      if overCount > 0 || overBytes > 0 {
        var auditMean := Mean(census.auditBytes, census.auditCount);
        var auditByBytes := if overBytes > 0 then CeilDiv(overBytes, auditMean) else 0;
        var fromAudits: nat := Min(census.auditCount, Max(overCount, auditByBytes));
        assert fromAudits == FromAudits(census, limits);
        if fromAudits > 0 {
          evictions := evictions + [Eviction(AuditClass, fromAudits, None, AuditFloor)];
        }
      }
    }
    assert evictions == aged + SizeEvictions(census, limits);
  }

  /** The headroom target is the whole number of rows or bytes nearest 95 % of the cap, toward zero. */
  lemma TargetIs95Percent(cap: int)
    ensures cap >= 0 ==> 100 * Target(cap) <= 95 * cap < 100 * Target(cap) + 100
    ensures cap < 0 ==> 100 * Target(cap) - 100 < 95 * cap <= 100 * Target(cap)
  {
  }

  // ---- The order of the classes ----------------------------------------------------------------------

  lemma CeilDivCovers(a: nat, b: nat, k: nat)
    requires b > 0 && k >= CeilDiv(a, b)
    ensures k * b >= a
  {
    var q := CeilDiv(a, b);
    assert q * b + (a + b - 1) % b == a + b - 1;
    TimesMonotone(q, k, b);
  }

  /** Size pressure takes an audit only in a plan that takes every sample. */
  lemma AuditsOnlyAfterEverySample(census: Census, limits: Limits)
    requires FromAudits(census, limits) > 0
    ensures FromSamples(census, limits) == census.sampleCount
  {
    var mean := Mean(census.sampleBytes, census.sampleCount);
    if FromSamples(census, limits) < census.sampleCount {
      if OverBytes(census, limits) > 0 {
        CeilDivCovers(OverBytes(census, limits), mean, FromSamples(census, limits));
      }
    }
  }

  /** Together the two shares shed the whole count overrun, when there are rows for it. */
  lemma SharesCoverCount(census: Census, limits: Limits)
    ensures FromSamples(census, limits) + FromAudits(census, limits)
            >= Min(census.TotalCount(), OverCount(census, limits))
    ensures FromSamples(census, limits) <= census.sampleCount && FromAudits(census, limits) <= census.auditCount
  {
  }
}

/** The stored disk samples (backend/scheduler.py, _record_disk_sample) that the forecast reads. */
module DiskHistory {
  import opened Options
  import opened DiskForecast

  const DISK_HISTORY_MAX_SAMPLES := 336

  function Trim(history: seq<Sample>): (kept: seq<Sample>)
    ensures |kept| <= DISK_HISTORY_MAX_SAMPLES
  {
    if |history| > DISK_HISTORY_MAX_SAMPLES then history[|history| - DISK_HISTORY_MAX_SAMPLES..] else history
  }

  /** A setting that does not decode (None) counts as an empty history. */
  function Decoded(setting: Option<seq<Sample>>): seq<Sample> {
    if setting.Some? then setting.value else []
  }

  class SettingStore {
    var history: Option<seq<Sample>>

    constructor (history: Option<seq<Sample>>)
      ensures this.history == history
    {
      this.history := history;
    }

    method RecordDiskSample(ts: real, usedGb: real)
      modifies this
      ensures history == Recorded(old(history), [Reading(ts, usedGb)])
    {
      var samples := Decoded(history) + [Reading(ts, usedGb)];
      assert [Reading(ts, usedGb)][..0] == [];
      if |samples| > DISK_HISTORY_MAX_SAMPLES {
        samples := samples[|samples| - DISK_HISTORY_MAX_SAMPLES..];
      }
      history := Some(samples);
    }
  }

  /** The setting after the samples have been recorded one by one. */
  function Recorded(setting: Option<seq<Sample>>, samples: seq<Sample>): Option<seq<Sample>> {
    if samples == [] then setting
    else
      var n := |samples| - 1;
      Some(Trim(Decoded(Recorded(setting, samples[..n])) + [samples[n]]))
  }

  /** Trimming after every sample keeps what trimming once would. */
  lemma {:induction false} StoredAreTheNewest(setting: Option<seq<Sample>>, samples: seq<Sample>)
    requires samples != []
    ensures Recorded(setting, samples) == Some(Trim(Decoded(setting) + samples))
  {
    hide Trim;
    var n := |samples| - 1;
    var earlier := Decoded(setting) + samples[..n];
    assert Decoded(setting) + samples == earlier + [samples[n]];
    if n == 0 {
      assert Recorded(setting, samples[..n]) == setting && earlier == Decoded(setting);
    } else {
      StoredAreTheNewest(setting, samples[..n]);
      TrimTwice(earlier, samples[n]);
    }
  }

  /** What is stored after at least one sample: of all the samples, old and new, the newest 336 in order;
      the last one recorded is the last. */
  lemma StoredExactly(setting: Option<seq<Sample>>, samples: seq<Sample>)
    requires samples != []
    ensures var all := (if setting.Some? then setting.value else []) + samples;
            var stored := Recorded(setting, samples);
            && stored == Some(if |all| <= 336 then all else all[|all| - 336..])
            && stored.value != [] && stored.value[|stored.value| - 1] == samples[|samples| - 1]
  {
    hide Recorded, Trim;
    StoredAreTheNewest(setting, samples);
    var all := (if setting.Some? then setting.value else []) + samples;
    assert all[|all| - 1] == samples[|samples| - 1];
    TrimExactly(all);
  }

  lemma TrimExactly(all: seq<Sample>)
    requires all != []
    ensures Trim(all) == if |all| <= 336 then all else all[|all| - 336..]
    ensures Trim(all) != [] && Trim(all)[|Trim(all)| - 1] == all[|all| - 1]
  {
  }

  lemma TrimTwice(history: seq<Sample>, s: Sample)
    ensures Trim(Trim(history) + [s]) == Trim(history + [s])
  {
  }

  ghost predicate Growing(samples: seq<Sample>) {
    && (forall i | 0 <= i < |samples| :: samples[i].Reading?)
    && (forall i, j | 0 <= i < j < |samples| ::
          samples[i].ts <= samples[j].ts && samples[i].usedGb <= samples[j].usedGb)
  }

  lemma TrimStaysGrowing(samples: seq<Sample>)
    requires Growing(samples)
    ensures Growing(Trim(samples))
  {
  }

  /** A disk that only ever fills, recorded under a clock that does not run backwards, is never
      forecast to shrink, however long it has been recorded. */
  lemma FillingDiskNeverShrinks(samples: seq<Sample>, totalGb: real)
    requires Growing(samples) && samples != []
    ensures var history := Decoded(Recorded(None, samples));
            && |history| <= DISK_HISTORY_MAX_SAMPLES
            && (ComputeForecast(history, totalGb).Some? <==> |samples| >= MIN_SAMPLES)
            && (ComputeForecast(history, totalGb).Some? ==>
                  ComputeForecast(history, totalGb).value.growthGbPerDay >= 0.0)
  {
    hide ComputeForecast, Growing;
    StoredAreTheNewest(None, samples);
    assert [] + samples == samples;
    TrimStaysGrowing(samples);
    GrowingIsNeverShrinking(Trim(samples), totalGb);
  }

  lemma GrowingIsNeverShrinking(history: seq<Sample>, totalGb: real)
    requires Growing(history)
    ensures ComputeForecast(history, totalGb).Some? <==> |history| >= MIN_SAMPLES
    ensures ComputeForecast(history, totalGb).Some? ==>
              ComputeForecast(history, totalGb).value.growthGbPerDay >= 0.0
  {
    hide ComputeForecast, Readable, Denominator, Slope;
    ReadingsAreReadable(history);
    ForecastOfGrowingUsage(history, totalGb);
    ForecastPredictsExactly(history, totalGb);
  }
}

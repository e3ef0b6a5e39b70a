/**
 The sample store and the custom collector: the two package variables
 `snmpLatency` and `snmpInfo`, the two places that overwrite them, and the
 `Describe`/`Collect` methods that the Prometheus registry calls on a scrape.
 The histogram is registered separately and is not part of this store.
 */
module Collector {
  import opened Wrappers
  import opened Labels
  import PromSlices

  /** A float64 kept as its IEEE-754 bits; the model never computes with it. */
  datatype Float64 = Float64(bits: bv64)

  /** `prometheus.NewDesc(name, help, variableLabels, nil)`. */
  datatype Desc = Desc(fqName: string, help: string, variableLabels: seq<string>)

  /** The gauge value of a constant metric: the latency reading, or the 1 of an info metric. */
  datatype GaugeValue = Reading(seconds: Float64) | One

  /** A constant gauge, with the label values paired by position with the
      descriptor's label names and an optional explicit sample time. */
  datatype Metric = Metric(desc: Desc, value: GaugeValue, labelValues: seq<string>, timestamp: Option<int>)

  const LatencyName := "snmp_response_latency_seconds"
  const LatencyHelp := "SNMP packet response latency"
  const InfoName := "snmp_about_info"
  const InfoHelp := "SNMP narrative metric with a default value of 1"

  /** The timestamped gauge `ObserveLatency` builds; `at` is `time.Now()` in nanoseconds. */
  function LatencyMetric(seconds: Float64, at: int): (r: Metric)
    ensures r.desc.fqName == LatencyName && r.desc.help == LatencyHelp
    ensures r.desc.variableLabels == [] && r.labelValues == []
    ensures r.value == Reading(seconds) && r.timestamp == Some(at)
  {
    Metric(Desc(LatencyName, LatencyHelp, []), Reading(seconds), [], Some(at))
  }

  /** The info metric built from the label map, through `promMapToSlice`. */
  predicate IsInfoFor(mt: Metric, labels: LabelMap) {
    && mt.desc == Desc(InfoName, InfoHelp, mt.desc.variableLabels)
    && mt.value == One && mt.timestamp == None
    && |mt.desc.variableLabels| == |mt.labelValues| == |labels|
    && PromSlices.Distinct(mt.desc.variableLabels)
    && PromSlices.Zip(mt.desc.variableLabels, mt.labelValues) == labels
  }

  /** `snmpCollector` together with the two package variables it reads. */
  class SnmpCollector {
    var latency: Option<Metric>
    var info: Option<Metric>

    /** At start-up both slots are nil. */
    constructor ()
      ensures latency == None && info == None
    {
      latency, info := None, None;
    }

    /** `ObserveLatency`: replace the latency slot wholesale; the info slot is untouched. */
    method ObserveLatency(seconds: Float64, now: int)
      modifies this
      ensures latency == Some(LatencyMetric(seconds, now))
      ensures info == old(info)
    {
      latency := Some(LatencyMetric(seconds, now));
    }

    /** The `snmpInfo` assignment of the polling cycle: rebuild the info metric
        from this cycle's labels alone; the latency slot is untouched. */
    method SetInfo(labels: LabelMap)
      modifies this
      ensures info.Some? && IsInfoFor(info.value, labels)
      ensures latency == old(latency)
    {
      var names, values := PromSlices.MapToSlices(labels);
      info := Some(Metric(Desc(InfoName, InfoHelp, names), One, values, None));
    }

    /** `Describe`: the descriptors of the set slots, latency first. */
    method Describe() returns (ds: seq<Desc>)
      ensures |ds| == (if latency.Some? then 1 else 0) + (if info.Some? then 1 else 0)
      ensures latency.Some? ==> ds[0] == latency.value.desc
      ensures info.Some? ==> ds[|ds| - 1] == info.value.desc
    {
      ds := [];
      if latency.Some? {
        ds := ds + [latency.value.desc];
      }
      if info.Some? {
        ds := ds + [info.value.desc];
      }
    }

    /** `Collect`: the metrics of the set slots, latency first; nothing before
        the first update. */
    method Collect() returns (ms: seq<Metric>)
      ensures |ms| == (if latency.Some? then 1 else 0) + (if info.Some? then 1 else 0)
      ensures latency.Some? ==> ms[0] == latency.value
      ensures info.Some? ==> ms[|ms| - 1] == info.value
    {
      ms := [];
      if latency.Some? {
        ms := ms + [latency.value];
      }
      if info.Some? {
        ms := ms + [info.value];
      }
    }

    /** One successful pass of the polling loop after the request was sent: the
        receive hook records the latency, then the response is turned into the
        info metric. When the contact value is not a byte string Go panics after
        the latency was recorded; the model returns the error with the info
        slot as it was. A slot once set stays set. */
    method PollCycle(seconds: Float64, receivedAt: int, response: seq<Binding>, toBigInt: Value -> nat)
      returns (r: Result<(), ExtractError>)
      modifies this
      ensures latency == Some(LatencyMetric(seconds, receivedAt))
      ensures r.Success? <==> Extract(response, toBigInt).Success?
      ensures r.Failure? ==> r.error == Extract(response, toBigInt).error && info == old(info)
      ensures r.Success? ==> info.Some? && IsInfoFor(info.value, Extract(response, toBigInt).value)
    {
      ObserveLatency(seconds, receivedAt);
      var labels := ExtractLabels(response, toBigInt);
      if labels.Failure? {
        return Failure(labels.error);
      }
      SetInfo(labels.value);
      r := Success(());
    }
  }
}

# SNMP latency exporter example: a Dafny model of its sampling core

The gosnmp example `examples/example_prom/main.go` polls one device with SNMP at
fixed aligned intervals, records the round-trip latency, turns the response's
`sysContact.0` and `sysServices.0` bindings into the labels of an info metric,
and serves both through a custom Prometheus collector. This project models the
four pieces of sequential logic in that file and proves what they promise:

- **Aligned scheduler** (`Schedule`): `backoffDuration`'s arithmetic
  `next = now + (d - now % d)` over integer nanoseconds, with Go's truncating
  `%` written out and a zero interval (a divide-by-zero panic in Go) returned
  as `None`. For `now >= 0` and `d > 0` the instant is a multiple of `d`,
  strictly after `now`, at most `d` later, exactly `now + d` when `now` is
  already aligned, and the earliest such boundary. Before the epoch the
  truncating remainder makes an unaligned `now` skip one boundary
  (`PreEpochSkipsBoundary`); a negative interval yields an instant in the past.
- **Label rendering** (`Format`): `string(bytes)` as a byte-for-byte copy with
  its inverse, and `fmt.Sprintf("%07b\n", n)` as the binary digits of `n`,
  zero-padded to at least seven, then a newline. The digits read back as `n`,
  no zero is added beyond the width, and 78 renders as `"1001110\n"`.
- **Label extraction** (`Labels`): the loop over the response bindings that
  fills a fresh map, as a method proved equal to a fold (`Extract`), which is
  in turn proved equal to a declarative reference: each label is present iff a
  binding with its dotted OID occurs, carries the rendering of the last such
  binding, other OIDs contribute nothing wherever they stand, and a contact
  value that is not a byte string (Go's type assertion panics) is reported as
  an error carrying the first offending value.
- **`promMapToSlice`** (`PromSlices`): the loop that splits a map into
  parallel name and value slices, for any enumeration order: equal lengths,
  the map's size, distinct names, each value beside its key, and zipping the
  slices gives the map back.
- **Sample store and collector** (`Collector`): a class with the two slots
  `snmpLatency` and `snmpInfo`; `ObserveLatency` and the info assignment each
  replace one slot and leave the other; `Describe` and `Collect` emit the set
  slots, latency first, nothing before the first update; `PollCycle` is one
  pass of the polling loop after the request returned.

The registry calls `Describe` once, at registration (main.go:182), when both
slots are still unset; the model's `Describe` then returns no descriptor, which
is what makes client_golang treat the collector as unchecked.

The services label keeps `%07b\n` exactly: padded to seven digits, with the
trailing newline that the documented output at main.go:23 shows.

## Model

| member | source | states |
|---|---|---|
| Schedule.GoRem | examples/example_prom/main.go:154 | Go's `%`: the remainder is below the divisor in magnitude, takes the dividend's sign, and differs from the dividend by a multiple of the divisor |
| Schedule.NextBoundary | examples/example_prom/main.go:146-157 | the instant is undefined exactly when the interval is zero (Go panics on `% 0`) |
| Schedule.NextBoundaryAligned | examples/example_prom/main.go:153-154 | for every non-zero interval and every `now` the instant is an exact multiple of the interval |
| Schedule.NextBoundaryBounds | examples/example_prom/main.go:153-154 | for `now >= 0`, `d > 0`: aligned, strictly later than `now`, at most `d` later |
| Schedule.AlignedNowWaitsFullInterval | examples/example_prom/main.go:154 | an already aligned `now` waits a full interval, never zero |
| Schedule.NextBoundaryIsLeast | examples/example_prom/main.go:147-154 | the instant is no later than any boundary strictly after `now` (it is the next mark) |
| Schedule.PreEpochSkipsBoundary | examples/example_prom/main.go:154 | for an unaligned negative `now` the truncating remainder gives an aligned instant more than one interval ahead |
| Schedule.NegativeIntervalNotInFuture | examples/example_prom/main.go:149-155 | a negative parsed interval gives an instant before `now`, so the sleep is immediate |
| Format.BytesToString | examples/example_prom/main.go:115 | one character per byte, the i-th character having the code of the i-th byte |
| Format.BytesRoundTrip | examples/example_prom/main.go:115 | the contact text gives back exactly the raw bytes |
| Format.StringRoundTrip | examples/example_prom/main.go:115 | every byte-valued string is the text of its bytes |
| Format.BinaryValue | examples/example_prom/main.go:118 | a string of `k` binary digits denotes a number below 2^k |
| Format.BinaryDigits | examples/example_prom/main.go:118 | `%b` digits: binary, non-empty, "0" exactly for zero, a leading '1' otherwise |
| Format.BinaryDigitsValue | examples/example_prom/main.go:118 | the `%b` digits of `n` read back as `n` |
| Format.LeadingZerosValue | examples/example_prom/main.go:118 | zero padding does not change the number denoted |
| Format.PadZeros | examples/example_prom/main.go:118 | the `0` flag: length is the larger of width and input, the input is the suffix, the rest is '0' |
| Format.FormatServices | examples/example_prom/main.go:118 | `%07b\n`: at least seven binary digits that read back as `n`, no zero beyond the width, then a newline |
| Format.FormatServicesOf78 | examples/example_prom/main.go:23 | 78 is rendered as `"1001110\n"`, the value the documented output shows |
| Format.FormatServicesOfZero | examples/example_prom/main.go:118 | zero is rendered as seven zeros and a newline |
| Labels.NamesDistinct | examples/example_prom/main.go:113-118 | the two dispatch OIDs differ, and so do the two label names |
| Labels.Step | examples/example_prom/main.go:112-122 | one pass of the `switch`: fails exactly on a contact value that is not bytes, adds at most the two known labels, and keeps every other entry |
| Labels.Extract | examples/example_prom/main.go:110-124 | the loop from a fresh map as a fold; a bad contact value ends it with an error, and a result holds no key but `contact` and `sysServices` |
| Labels.Reference | examples/example_prom/main.go:110-124 | declarative: the first bad contact value as the error, else each label from the last binding of its OID; it succeeds iff no contact binding is bad |
| Labels.LastIndex | examples/example_prom/main.go:111-118 | the position of the last binding with a given OID, or none when the OID does not occur |
| Labels.FirstBadContact | examples/example_prom/main.go:113-115 | the position of the first contact binding whose value is not a byte string |
| Labels.ExtractIsReference | examples/example_prom/main.go:110-124 | the binding-by-binding loop equals the reference: first bad contact value as the error, otherwise each label from the last binding of its OID |
| Labels.ReferenceSnoc | examples/example_prom/main.go:111-123 | one more binding moves the reference exactly as one pass of the loop body moves the map |
| Labels.ExtractLookup | examples/example_prom/main.go:110-124 | a successful result holds each known label iff its OID occurs, with the rendering of the last such value, and no other key |
| Labels.ExtractSucceedsIff | examples/example_prom/main.go:113-115 | extraction succeeds iff every contact binding carries bytes; a failure reports the first one that does not |
| Labels.ExtractKeys | examples/example_prom/main.go:110-124 | keys are among `contact` and `sysServices`, each present iff a binding with its dotted OID occurs |
| Labels.LastValueAt | examples/example_prom/main.go:111-118 | a binding with no later binding of its OID gives the last value of that OID |
| Labels.ExtractContactIsLast | examples/example_prom/main.go:113-115 | `contact` is the raw bytes, as text, of the last contact binding |
| Labels.ExtractServicesIsLast | examples/example_prom/main.go:116-118 | `sysServices` is the `%07b\n` rendering of the last services binding |
| Labels.ExtractIgnoresUnmatched | examples/example_prom/main.go:119-122 | inserting a binding with an unknown OID anywhere leaves the result unchanged |
| Labels.FailureIsFinal | examples/example_prom/main.go:115 | once a prefix fails, the whole response fails with the same error (the panic ends the loop) |
| Labels.ExtractLabels | examples/example_prom/main.go:110-124 | the loop over a fresh map computes `Extract` of the response alone, so equal responses give equal labels |
| Labels.ExtractExample | examples/example_prom/main.go:110-118 | contact "ops@example.com" with sysServices 78 gives exactly those two labels, the second `"1001110\n"` |
| PromSlices.ZipLookup | examples/example_prom/main.go:137-144 | zipping distinct names with their values sends each name to its partner value |
| PromSlices.ZipKeys | examples/example_prom/main.go:137-144 | the zipped map has exactly the names as keys |
| PromSlices.ZipSnoc | examples/example_prom/main.go:139-142 | appending one pair to both slices adds that pair to the zipped map |
| PromSlices.MapToSlices | examples/example_prom/main.go:137-144 | for any enumeration: equal lengths equal to the map's size, distinct names, `values[i] == m[names[i]]`, and the zip is the map (empty map, empty slices) |
| Collector.LatencyMetric | examples/example_prom/main.go:169-177 | the latency gauge: name and help, no labels, the reading as value, the observation time as explicit timestamp |
| Collector.SnmpCollector.constructor | examples/example_prom/main.go:159-160 | both slots start unset |
| Collector.SnmpCollector.ObserveLatency | examples/example_prom/main.go:164-178 | the latency slot holds the new timestamped gauge; the info slot is unchanged |
| Collector.SnmpCollector.SetInfo | examples/example_prom/main.go:126-133 | the info slot holds an info metric with distinct label names zipping back to exactly this cycle's labels; the latency slot is unchanged |
| Collector.SnmpCollector.Describe | examples/example_prom/main.go:205-212 | one descriptor per set slot, latency first; none before the first update |
| Collector.SnmpCollector.Collect | examples/example_prom/main.go:215-222 | one metric per set slot, latency first; none before the first update |
| Collector.SnmpCollector.PollCycle | examples/example_prom/main.go:110-133 | after the response arrived: latency recorded first, as the receive hook of main.go:79-81 does; info replaced by the labels of this response alone, or left as it was when extraction fails, with the same error |

## Left out

- SNMP `Connect`, `Get`, the socket and its `Close` (main.go:67-72, 105): protocol client I/O. A failed `Get` ends the process and is not modelled.
- The HTTP listener, the `promhttp` handler and registry registration (main.go:87-92, 180-198): server plumbing inside client_golang.
- The latency histogram and `snmpDurationHist.Observe` (main.go:166, 185-193): it lives inside client_golang, and its values are floats.
- `time.Now`, `time.Since`, `time.Sleep` and the `OnSent`/`OnRecv` hooks (main.go:75-81, 155): the clock and the sleep. The current time and the receive time are parameters; the latency is an opaque 64-bit float token.
- `time.ParseDuration` (main.go:149-152): a string parser of the Go library; the interval is taken as a parsed nanosecond count, and an unparseable string (fatal in the source) is not modelled.
- Schedule.NextBoundary: does not model int64 overflow of `now + (d - now % d)`, because integers are unbounded here and the overflow lies centuries after the epoch for the 120 s interval the source uses.
- `g.ToBigInt(...).Int64()` (main.go:118): a gosnmp library call, taken as a parameter `toBigInt` mapping a value to a non-negative integer; negative values and truncation to 64 bits are not modelled.
- Format.BytesToString: Go strings are bytes, Dafny strings are characters; each byte is modelled as the character with the same code, and UTF-8 validity is not modelled.
- `fmt.Printf` for unmatched OIDs (main.go:121): logging only; the bindings are excluded as in the source.
- `prometheus.MustNewConstMetric` and `NewDesc` validation (main.go:127-133, 169-177): client_golang internals; the model builds the descriptor and metric as plain values. `MapToSlices` guarantees the equal lengths that `MustNewConstMetric` checks.
- The goroutine and the unsynchronised globals shared between the polling loop and scrapes (main.go:88, 159-161): the store is modelled single-threaded.
- `version.NewCollector` (main.go:197): build information supplied by a library.

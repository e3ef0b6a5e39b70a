/**
 Label extraction: the loop of the polling cycle that turns the variable
 bindings of one SNMP response into the label map of the `snmp_about_info`
 metric. The map is built from nothing on every cycle.
 */
module Labels {
  import opened Wrappers
  import opened Format

  /** sysContact.0 and sysServices.0, as gosnmp names them: with a leading dot. */
  const ContactOid := ".1.3.6.1.2.1.1.4.0"
  const ServicesOid := ".1.3.6.1.2.1.1.7.0"

  const ContactLabel := "contact"
  const ServicesLabel := "sysServices"

  lemma NamesDistinct()
    ensures ContactOid != ServicesOid && ContactLabel != ServicesLabel
  {
    assert ContactOid[15] != ServicesOid[15];
    assert |ContactLabel| != |ServicesLabel|;
  }

  /** The value of a binding, as far as extraction looks at it. */
  datatype Value = OctetString(bytes: seq<byte>) | Integer(n: int) | NoSuchObject

  datatype Binding = Binding(name: string, value: Value)

  /** `variable.Value.([]byte)` on a value that is not a byte slice panics; the
      model returns the offending value instead. */
  datatype ExtractError = ContactNotOctetString(value: Value)

  type LabelMap = map<string, string>

  /** A contact binding whose value the type assertion rejects. */
  predicate BadContact(b: Binding) {
    b.name == ContactOid && !b.value.OctetString?
  }

  /** One pass of the loop body: dispatch on the OID; other OIDs are only logged. */
  function Step(m: LabelMap, b: Binding, toBigInt: Value -> nat): (r: Result<LabelMap, ExtractError>)
    ensures r.Failure? <==> BadContact(b)
    ensures r.Failure? ==> r.error == ContactNotOctetString(b.value)
    ensures r.Success? ==> r.value.Keys <= m.Keys + {ContactLabel, ServicesLabel}
    ensures r.Success? ==> forall k :: k in m && k != ContactLabel && k != ServicesLabel ==>
      k in r.value && r.value[k] == m[k]
  {
    if b.name == ContactOid then
      if b.value.OctetString? then Success(m[ContactLabel := BytesToString(b.value.bytes)])
      else Failure(ContactNotOctetString(b.value))
    else if b.name == ServicesOid then
      Success(m[ServicesLabel := FormatServices(toBigInt(b.value))])
    else
      Success(m)
  }

  /** The loop, binding by binding, from an empty map; `toBigInt` stands for
      gosnmp's `ToBigInt(v).Int64()`. */
  function Extract(vars: seq<Binding>, toBigInt: Value -> nat): (r: Result<LabelMap, ExtractError>)
    ensures r.Success? ==> r.value.Keys <= {ContactLabel, ServicesLabel}
    decreases |vars|
  {
    if vars == [] then Success(map[])
    else
      match Extract(vars[..|vars| - 1], toBigInt)
      case Failure(e) => Failure(e)
      case Success(m) => Step(m, vars[|vars| - 1], toBigInt)
  }

  /** Reference definition, part 1: the position of the last binding for `oid`. */
  function LastIndex(vars: seq<Binding>, oid: string): (r: Option<nat>)
    ensures r.Some? ==> r.value < |vars| && vars[r.value].name == oid
    ensures r.Some? ==> forall j :: r.value < j < |vars| ==> vars[j].name != oid
    ensures r.None? ==> forall j :: 0 <= j < |vars| ==> vars[j].name != oid
    decreases |vars|
  {
    if vars == [] then None
    else if vars[|vars| - 1].name == oid then Some(|vars| - 1)
    else LastIndex(vars[..|vars| - 1], oid)
  }

  /** Reference definition, part 2: the position of the first bad contact binding. */
  function FirstBadContact(vars: seq<Binding>): (r: Option<nat>)
    ensures r.Some? ==> r.value < |vars| && BadContact(vars[r.value])
    ensures r.Some? ==> forall j :: 0 <= j < r.value ==> !BadContact(vars[j])
    ensures r.None? ==> forall j :: 0 <= j < |vars| ==> !BadContact(vars[j])
    decreases |vars|
  {
    if vars == [] then None
    else
      match FirstBadContact(vars[..|vars| - 1])
      case Some(i) => Some(i)
      case None => if BadContact(vars[|vars| - 1]) then Some(|vars| - 1) else None
  }

  function ContactText(v: Value): string {
    if v.OctetString? then BytesToString(v.bytes) else ""
  }

  /** The value of the last binding for `oid`, if any. */
  function LastValue(vars: seq<Binding>, oid: string): (r: Option<Value>) {
    match LastIndex(vars, oid)
    case Some(i) => Some(vars[i].value)
    case None => None
  }

  function Entry(key: string, text: Option<string>): (m: LabelMap) {
    if text.Some? then map[key := text.value] else map[]
  }

  /** A label map with at most the two known labels. */
  function Assemble(contact: Option<string>, services: Option<string>): (m: LabelMap) {
    Entry(ContactLabel, contact) + Entry(ServicesLabel, services)
  }

  /** Reference definition, part 3: each label is present iff its OID occurs,
      and carries the rendering of the last binding for that OID. */
  function ExpectedLabels(vars: seq<Binding>, toBigInt: Value -> nat): (m: LabelMap) {
    var c := LastValue(vars, ContactOid);
    var s := LastValue(vars, ServicesOid);
    Assemble(if c.Some? then Some(ContactText(c.value)) else None,
             if s.Some? then Some(FormatServices(toBigInt(s.value))) else None)
  }

  /** The declarative reference: the first bad contact value as the error,
      otherwise each label from the last binding of its OID. */
  function Reference(vars: seq<Binding>, toBigInt: Value -> nat): (r: Result<LabelMap, ExtractError>)
    ensures r.Success? <==> forall i :: 0 <= i < |vars| ==> !BadContact(vars[i])
  {
    match FirstBadContact(vars)
    case Some(i) => Failure(ContactNotOctetString(vars[i].value))
    case None => Success(ExpectedLabels(vars, toBigInt))
  }

  lemma AssembleLookup(contact: Option<string>, services: Option<string>)
    ensures var m := Assemble(contact, services);
      && m.Keys <= {ContactLabel, ServicesLabel}
      && (ContactLabel in m <==> contact.Some?)
      && (contact.Some? ==> m[ContactLabel] == contact.value)
      && (ServicesLabel in m <==> services.Some?)
      && (services.Some? ==> m[ServicesLabel] == services.value)
  {
    NamesDistinct();
  }

  lemma AssembleUpdate(contact: Option<string>, services: Option<string>, x: string)
    ensures Assemble(Some(x), services) == Assemble(contact, services)[ContactLabel := x]
    ensures Assemble(contact, Some(x)) == Assemble(contact, services)[ServicesLabel := x]
  {
    NamesDistinct();
  }

  lemma LastValueSnoc(p: seq<Binding>, b: Binding, oid: string)
    ensures LastValue(p + [b], oid) == if b.name == oid then Some(b.value) else LastValue(p, oid)
  {
    assert (p + [b])[..|p|] == p;
    var l := LastIndex(p, oid);
    if b.name != oid && l.Some? {
      assert (p + [b])[l.value] == p[l.value];
    }
  }

  lemma FirstBadSnoc(p: seq<Binding>, b: Binding)
    ensures FirstBadContact(p + [b]) ==
      if FirstBadContact(p).Some? then FirstBadContact(p)
      else if BadContact(b) then Some(|p|) else None
  {
    assert (p + [b])[..|p|] == p;
  }

  /** The reference, extended by one binding, takes one step of the loop. */
  lemma ReferenceSnoc(p: seq<Binding>, b: Binding, toBigInt: Value -> nat)
    ensures Reference(p + [b], toBigInt) ==
      match Reference(p, toBigInt)
      case Failure(e) => Failure(e)
      case Success(m) => Step(m, b, toBigInt)
  {
    var vars := p + [b];
    FirstBadSnoc(p, b);
    NamesDistinct();
    LastValueSnoc(p, b, ContactOid);
    LastValueSnoc(p, b, ServicesOid);
    match FirstBadContact(p)
    case Some(i) =>
      assert vars[i] == p[i];
    case None =>
      var c, s := LastValue(p, ContactOid), LastValue(p, ServicesOid);
      var ct := if c.Some? then Some(ContactText(c.value)) else None;
      var st := if s.Some? then Some(FormatServices(toBigInt(s.value))) else None;
      if b.name == ContactOid {
        AssembleUpdate(ct, st, ContactText(b.value));
      } else if b.name == ServicesOid {
        AssembleUpdate(ct, st, FormatServices(toBigInt(b.value)));
      }
  }

  /** The loop computes the reference: a failure carries the first contact
      value that is not a byte string, and otherwise the later binding wins. */
  lemma {:induction false} ExtractIsReference(vars: seq<Binding>, toBigInt: Value -> nat)
    ensures Extract(vars, toBigInt) == Reference(vars, toBigInt)
    decreases |vars|
  {
    if vars != [] {
      var p, b := vars[..|vars| - 1], vars[|vars| - 1];
      assert vars == p + [b];
      ExtractIsReference(p, toBigInt);
      ReferenceSnoc(p, b, toBigInt);
    }
  }

  /** Extraction succeeds iff every contact binding carries a byte string, and
      a failure reports the first one that does not. */
  lemma ExtractSucceedsIff(vars: seq<Binding>, toBigInt: Value -> nat)
    ensures Extract(vars, toBigInt).Success? <==> forall i :: 0 <= i < |vars| ==> !BadContact(vars[i])
    ensures Extract(vars, toBigInt).Failure? ==>
      exists i :: 0 <= i < |vars| && BadContact(vars[i]) && (forall j :: 0 <= j < i ==> !BadContact(vars[j]))
        && Extract(vars, toBigInt).error == ContactNotOctetString(vars[i].value)
  {
    ExtractIsReference(vars, toBigInt);
  }

  /** The labels of a successful extraction, looked up through the reference. */
  lemma ExtractLookup(vars: seq<Binding>, toBigInt: Value -> nat)
    requires Extract(vars, toBigInt).Success?
    ensures var m, c, s := Extract(vars, toBigInt).value, LastValue(vars, ContactOid), LastValue(vars, ServicesOid);
      && m.Keys <= {ContactLabel, ServicesLabel}
      && (ContactLabel in m <==> c.Some?)
      && (c.Some? ==> m[ContactLabel] == ContactText(c.value))
      && (ServicesLabel in m <==> s.Some?)
      && (s.Some? ==> m[ServicesLabel] == FormatServices(toBigInt(s.value)))
  {
    ExtractIsReference(vars, toBigInt);
    var c, s := LastValue(vars, ContactOid), LastValue(vars, ServicesOid);
    AssembleLookup(if c.Some? then Some(ContactText(c.value)) else None,
                   if s.Some? then Some(FormatServices(toBigInt(s.value))) else None);
  }

  /** The keys are among `contact` and `sysServices`, each present exactly when
      a binding with its OID occurs in the response. */
  lemma ExtractKeys(vars: seq<Binding>, toBigInt: Value -> nat)
    requires Extract(vars, toBigInt).Success?
    ensures var m := Extract(vars, toBigInt).value;
      && m.Keys <= {ContactLabel, ServicesLabel}
      && (ContactLabel in m <==> exists i :: 0 <= i < |vars| && vars[i].name == ContactOid)
      && (ServicesLabel in m <==> exists i :: 0 <= i < |vars| && vars[i].name == ServicesOid)
  {
    ExtractLookup(vars, toBigInt);
  }

  lemma LastValueAt(vars: seq<Binding>, oid: string, i: nat)
    requires i < |vars| && vars[i].name == oid
    requires forall j :: i < j < |vars| ==> vars[j].name != oid
    ensures LastValue(vars, oid) == Some(vars[i].value)
  {
    assert LastIndex(vars, oid) == Some(i);
  }

  /** The contact label is the raw bytes of the last contact binding. */
  lemma ExtractContactIsLast(vars: seq<Binding>, toBigInt: Value -> nat, i: nat)
    requires Extract(vars, toBigInt).Success?
    requires i < |vars| && vars[i].name == ContactOid
    requires forall j :: i < j < |vars| ==> vars[j].name != ContactOid
    ensures vars[i].value.OctetString?
    ensures var m := Extract(vars, toBigInt).value;
      ContactLabel in m && m[ContactLabel] == BytesToString(vars[i].value.bytes)
  {
    ExtractSucceedsIff(vars, toBigInt);
    assert !BadContact(vars[i]);
    LastValueAt(vars, ContactOid, i);
    ExtractLookup(vars, toBigInt);
  }

  /** The sysServices label is the `%07b\n` rendering of the last services binding. */
  lemma ExtractServicesIsLast(vars: seq<Binding>, toBigInt: Value -> nat, i: nat)
    requires Extract(vars, toBigInt).Success?
    requires i < |vars| && vars[i].name == ServicesOid
    requires forall j :: i < j < |vars| ==> vars[j].name != ServicesOid
    ensures var m := Extract(vars, toBigInt).value;
      ServicesLabel in m && m[ServicesLabel] == FormatServices(toBigInt(vars[i].value))
  {
    LastValueAt(vars, ServicesOid, i);
    ExtractLookup(vars, toBigInt);
  }

  lemma {:induction false} LastIndexSkips(a: seq<Binding>, b: Binding, c: seq<Binding>, oid: string)
    requires b.name != oid
    ensures LastIndex(a + [b] + c, oid) ==
      match LastIndex(a + c, oid)
      case None => None
      case Some(i) => Some(if i < |a| then i else i + 1)
    decreases |c|
  {
    var s, t := a + [b] + c, a + c;
    if c == [] {
      assert s[..|s| - 1] == a && t == a;
    } else {
      var c' := c[..|c| - 1];
      assert s[..|s| - 1] == a + [b] + c';
      assert t[..|t| - 1] == a + c';
      LastIndexSkips(a, b, c', oid);
    }
  }

  lemma LastValueSkips(a: seq<Binding>, b: Binding, c: seq<Binding>, oid: string)
    requires b.name != oid
    ensures LastValue(a + [b] + c, oid) == LastValue(a + c, oid)
  {
    LastIndexSkips(a, b, c, oid);
    var l := LastIndex(a + c, oid);
    if l.Some? {
      var i := l.value;
      assert (a + [b] + c)[if i < |a| then i else i + 1] == (a + c)[i];
    }
  }

  lemma {:induction false} FirstBadSkips(a: seq<Binding>, b: Binding, c: seq<Binding>)
    requires !BadContact(b)
    ensures var r, r' := FirstBadContact(a + [b] + c), FirstBadContact(a + c);
      r.Some? == r'.Some? && (r.Some? ==> (a + [b] + c)[r.value] == (a + c)[r'.value])
    decreases |c|
  {
    var s, t := a + [b] + c, a + c;
    if c == [] {
      assert s[..|s| - 1] == a && t == a;
    } else {
      var c' := c[..|c| - 1];
      assert s[..|s| - 1] == a + [b] + c';
      assert t[..|t| - 1] == a + c';
      FirstBadSkips(a, b, c');
    }
  }

  /** A binding with an OID the table does not know contributes nothing,
      wherever it stands in the response. */
  lemma ExtractIgnoresUnmatched(a: seq<Binding>, b: Binding, c: seq<Binding>, toBigInt: Value -> nat)
    requires b.name != ContactOid && b.name != ServicesOid
    ensures Extract(a + [b] + c, toBigInt) == Extract(a + c, toBigInt)
  {
    ExtractIsReference(a + [b] + c, toBigInt);
    ExtractIsReference(a + c, toBigInt);
    FirstBadSkips(a, b, c);
    LastValueSkips(a, b, c, ContactOid);
    LastValueSkips(a, b, c, ServicesOid);
  }

  lemma {:induction false} FailureIsFinal(vars: seq<Binding>, k: nat, toBigInt: Value -> nat)
    requires k <= |vars| && Extract(vars[..k], toBigInt).Failure?
    ensures Extract(vars, toBigInt) == Extract(vars[..k], toBigInt)
    decreases |vars| - k
  {
    if k < |vars| {
      assert vars[..k + 1][..k] == vars[..k];
      FailureIsFinal(vars, k + 1, toBigInt);
    } else {
      assert vars[..k] == vars;
    }
  }

  /** The loop of the polling cycle. It fills a fresh map, so its result
      depends on the response alone: the same bindings give the same labels. */
  method ExtractLabels(vars: seq<Binding>, toBigInt: Value -> nat) returns (r: Result<LabelMap, ExtractError>)
    ensures r == Extract(vars, toBigInt)
  {
    var labels: LabelMap := map[];
    for i := 0 to |vars|
      invariant Extract(vars[..i], toBigInt) == Success(labels)
    {
      var b := vars[i];
      assert vars[..i + 1][..i] == vars[..i];
      if b.name == ContactOid {
        if !b.value.OctetString? {
          FailureIsFinal(vars, i + 1, toBigInt);
          return Failure(ContactNotOctetString(b.value));
        }
        labels := labels[ContactLabel := BytesToString(b.value.bytes)];
      } else if b.name == ServicesOid {
        labels := labels[ServicesLabel := FormatServices(toBigInt(b.value))];
      }
    }
    assert vars[..|vars|] == vars;
    r := Success(labels);
  }

  /** An example response: contact "ops@example.com" and sysServices 78. */
  lemma ExtractExample(toBigInt: Value -> nat)
    requires toBigInt(Integer(78)) == 78
    ensures IsByteString("ops@example.com")
    ensures Extract([Binding(ContactOid, OctetString(StringToBytes("ops@example.com"))),
                     Binding(ServicesOid, Integer(78))], toBigInt)
      == Success(map[ContactLabel := "ops@example.com", ServicesLabel := "1001110\n"])
  {
    var vars := [Binding(ContactOid, OctetString(StringToBytes("ops@example.com"))),
                 Binding(ServicesOid, Integer(78))];
    NamesDistinct();
    StringRoundTrip("ops@example.com");
    FormatServicesOf78();
    assert vars[..1][..0] == [];
    assert Extract(vars[..1], toBigInt) == Success(map[ContactLabel := "ops@example.com"]);
    assert Extract(vars, toBigInt) == Step(map[ContactLabel := "ops@example.com"], vars[1], toBigInt);
  }
}

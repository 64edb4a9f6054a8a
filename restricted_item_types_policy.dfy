/**
 * The admin-console form for the "restricted item types" policy: one
 * checkbox per cipher type that may be restricted (every type but Login).
 * The form is built from a stored policy payload and turned back into the
 * payload `{ restrictedItemTypes: [...] }` that the vault service decodes.
 */
module RestrictedItemTypesPolicy {
  import opened Text
  import opened RestrictedItemTypesService

  /** An entry of `availableCipherTypes`. */
  datatype AvailableType = AvailableType(cipherType: CipherType, translationKey: string)

  /** The restrictable types, in the order the form lists them. */
  const AvailableCipherTypes: seq<AvailableType> := [
    AvailableType(Card, "typeCard"),
    AvailableType(Identity, "typeIdentity"),
    AvailableType(SecureNote, "typeSecureNote"),
    AvailableType(SshKey, "typeSshKey")
  ]

  function AvailableTypes(): (ts: seq<CipherType>)
    ensures |ts| == |AvailableCipherTypes|
    ensures forall i :: 0 <= i < |ts| ==> ts[i] == AvailableCipherTypes[i].cipherType
  {
    seq(|AvailableCipherTypes|, i requires 0 <= i < |AvailableCipherTypes| => AvailableCipherTypes[i].cipherType)
  }

  /** `restrictedType_${type}` */
  function ControlName(t: CipherType): string {
    "restrictedType_" + IntToString(t)
  }

  /** Login is essential and never offered; the offered types are distinct,
      and so are their control names. */
  lemma AvailableTypesFacts()
    ensures AvailableTypes() == [Card, Identity, SecureNote, SshKey]
    ensures Login !in AvailableTypes()
    ensures NoDuplicates(AvailableTypes())
    ensures forall i, j :: 0 <= i < j < |AvailableTypes()| ==>
              ControlName(AvailableTypes()[i]) != ControlName(AvailableTypes()[j])
  {
    var ts := AvailableTypes();
    assert ts == [Card, Identity, SecureNote, SshKey];
    forall i, j | 0 <= i < j < |ts| ensures ControlName(ts[i]) != ControlName(ts[j]) {
      var k := |"restrictedType_"|;
      assert ControlName(ts[i])[k] == DigitChar(ts[i]);
      assert ControlName(ts[j])[k] == DigitChar(ts[j]);
    }
  }

  /** The control names of the types of `ts`. */
  function ControlNamesOf(ts: seq<CipherType>): (r: set<string>)
    ensures forall t :: t in ts ==> ControlName(t) in r
  {
    if |ts| == 0 then {}
    else
      assert forall x :: x in ts <==> x in ts[..|ts| - 1] || x == ts[|ts| - 1];
      ControlNamesOf(ts[..|ts| - 1]) + {ControlName(ts[|ts| - 1])}
  }

  /** A name is among those of `ts` exactly when some type of `ts` has it. */
  lemma {:induction false} ControlNamesOfExact(ts: seq<CipherType>, k: string)
    ensures k in ControlNamesOf(ts) <==> exists t :: t in ts && k == ControlName(t)
  {
    if |ts| > 0 && k in ControlNamesOf(ts) {
      var front, last := ts[..|ts| - 1], ts[|ts| - 1];
      assert ts == front + [last];
      if k == ControlName(last) {
        assert last in ts;
      } else {
        assert k in ControlNamesOf(front);
        ControlNamesOfExact(front, k);
        var t :| t in front && k == ControlName(t);
        assert t in ts;
      }
    }
  }

  /** The names of all controls the form creates. */
  function ControlNames(): set<string> {
    ControlNamesOf(AvailableTypes())
  }

  /** `loadData`'s list: the payload's `restrictedItemTypes`, or empty. */
  function StoredTypes(responseData: Json): seq<CipherType> {
    if responseData.JObject? && LowerKey in responseData.fields then KeyedList(responseData.fields[LowerKey])
    else []
  }

  /** Controls after setting, in the order of `ts`, each existing control
      of a type in `ts` to whether that type is in `restricted`. */
  function LoadInto(controls: map<string, bool>, ts: seq<CipherType>, restricted: seq<CipherType>): (r: map<string, bool>)
    ensures r.Keys == controls.Keys
  {
    if |ts| == 0 then controls
    else
      var before := LoadInto(controls, ts[..|ts| - 1], restricted);
      var name := ControlName(ts[|ts| - 1]);
      if name in before then before[name := ts[|ts| - 1] in restricted] else before
  }

  /** The types of `ts`, in order, whose control is checked. */
  function CheckedAmong(controls: map<string, bool>, ts: seq<CipherType>): (r: seq<CipherType>)
    ensures |r| <= |ts|
    ensures forall t :: t in r <==> t in ts && ControlName(t) in controls && controls[ControlName(t)]
  {
    if |ts| == 0 then []
    else
      var t := ts[|ts| - 1];
      var before := CheckedAmong(controls, ts[..|ts| - 1]);
      assert forall x :: x in ts <==> x in ts[..|ts| - 1] || x == t;
      if ControlName(t) in controls && controls[ControlName(t)] then before + [t] else before
  }

  /** Picking the checked types of a list without repeats repeats none. */
  lemma {:induction false} CheckedAmongDistinct(controls: map<string, bool>, ts: seq<CipherType>)
    requires NoDuplicates(ts)
    ensures NoDuplicates(CheckedAmong(controls, ts))
  {
    if |ts| > 0 {
      var front := ts[..|ts| - 1];
      assert NoDuplicates(front) by {
        forall i, j | 0 <= i < j < |front| ensures front[i] != front[j] {
          assert front[i] == ts[i] && front[j] == ts[j];
        }
      }
      CheckedAmongDistinct(controls, front);
      assert ts[|ts| - 1] !in front;
    }
  }

  /** The types of `ts`, in order, that are in `restricted`. */
  function SelectedAmong(ts: seq<CipherType>, restricted: seq<CipherType>): seq<CipherType> {
    if |ts| == 0 then []
    else
      var t := ts[|ts| - 1];
      SelectedAmong(ts[..|ts| - 1], restricted) + (if t in restricted then [t] else [])
  }

  /** After loading, the control of each type of `ts` says whether the type
      is restricted, provided the names of `ts` are distinct and present. */
  lemma {:induction false} LoadIntoSetsEachControl(controls: map<string, bool>, ts: seq<CipherType>, restricted: seq<CipherType>)
    requires forall t :: t in ts ==> ControlName(t) in controls
    requires forall i, j :: 0 <= i < j < |ts| ==> ControlName(ts[i]) != ControlName(ts[j])
    ensures forall i :: 0 <= i < |ts| ==> LoadInto(controls, ts, restricted)[ControlName(ts[i])] == (ts[i] in restricted)
  {
    if |ts| > 0 {
      var front := ts[..|ts| - 1];
      LoadIntoSetsEachControl(controls, front, restricted);
      forall i | 0 <= i < |ts| ensures LoadInto(controls, ts, restricted)[ControlName(ts[i])] == (ts[i] in restricted) {
        if i < |ts| - 1 {
          assert front[i] == ts[i];
        }
      }
    }
  }

  /** Reading the checkboxes back after loading selects exactly the loaded
      types, in form order. */
  lemma {:induction false} CheckedAfterLoad(controls: map<string, bool>, ts: seq<CipherType>, restricted: seq<CipherType>)
    requires forall i :: 0 <= i < |ts| ==> ControlName(ts[i]) in controls && controls[ControlName(ts[i])] == (ts[i] in restricted)
    ensures CheckedAmong(controls, ts) == SelectedAmong(ts, restricted)
  {
    if |ts| > 0 {
      CheckedAfterLoad(controls, ts[..|ts| - 1], restricted);
    }
  }

  /** The round trip of the form: loading a stored payload and rebuilding the
      request gives the offered types, in form order, that the payload lists. */
  lemma LoadThenBuildRoundTrip(responseData: Json)
    requires Truthy(responseData)
    ensures CheckedAmong(LoadInto(InitialControls(), AvailableTypes(), StoredTypes(responseData)), AvailableTypes())
            == SelectedAmong(AvailableTypes(), StoredTypes(responseData))
  {
    var ts := AvailableTypes();
    var restricted := StoredTypes(responseData);
    AvailableTypesFacts();
    var loaded := LoadInto(InitialControls(), ts, restricted);
    LoadIntoSetsEachControl(InitialControls(), ts, restricted);
    CheckedAfterLoad(loaded, ts, restricted);
  }

  /** The service's decoder reads back the list the form sends. */
  lemma DecoderReadsRequest(request: seq<CipherType>, parse: string -> Option<Json>)
    ensures RestrictedTypes(RequestPayload(request), parse) == request
  {
    assert UpperKey != LowerKey;
  }

  /** The payload `{ restrictedItemTypes }` sent to the server. */
  function RequestPayload(request: seq<CipherType>): Json {
    JObject(map[LowerKey := JList(request)])
  }

  /** One unchecked control per type of `ts`. */
  function UncheckedControls(ts: seq<CipherType>): (m: map<string, bool>)
    ensures m.Keys == ControlNamesOf(ts)
    ensures forall k :: k in m ==> !m[k]
  {
    if |ts| == 0 then map[]
    else
      var before := UncheckedControls(ts[..|ts| - 1]);
      before[ControlName(ts[|ts| - 1]) := false]
  }

  /** Every offered type's control, unchecked. */
  function InitialControls(): (m: map<string, bool>)
    ensures m.Keys == ControlNames()
    ensures forall k :: k in m ==> !m[k]
  {
    UncheckedControls(AvailableTypes())
  }

  /** The form component. `data` is the form group, absent before `ngOnInit`. */
  class RestrictedItemTypesPolicyComponent {
    var data: Option<map<string, bool>>

    constructor ()
      ensures data == None
    {
      data := None;
    }

    /** Creates one unchecked control per offered type. */
    method NgOnInit()
      modifies this
      ensures data == Some(InitialControls())
    {
      var formControls: map<string, bool> := map[];
      var types := AvailableTypes();
      var i := 0;
      while i < |types|
        invariant 0 <= i <= |types|
        invariant formControls == UncheckedControls(types[..i])
      {
        assert types[..i + 1][..i] == types[..i];
        formControls := formControls[ControlName(types[i]) := false];
        i := i + 1;
      }
      assert types[..i] == types;
      data := Some(formControls);
    }

    /** Checks each offered type's control when the stored payload lists the
        type; does nothing when the payload is falsy or the form is absent. */
    method LoadData(responseData: Json)
      modifies this
      ensures !Truthy(responseData) || old(data).None? ==> data == old(data)
      ensures Truthy(responseData) && old(data).Some? ==>
                data == Some(LoadInto(old(data).value, AvailableTypes(), StoredTypes(responseData)))
    {
      if Truthy(responseData) && data.Some? {
        var restrictedTypes := StoredTypes(responseData);
        var types := AvailableTypes();
        var controls := data.value;
        var i := 0;
        while i < |types|
          invariant 0 <= i <= |types|
          invariant controls == LoadInto(old(data).value, types[..i], restrictedTypes)
        {
          assert types[..i + 1][..i] == types[..i];
          var controlName := ControlName(types[i]);
          if controlName in controls {
            controls := controls[controlName := types[i] in restrictedTypes];
          }
          i := i + 1;
        }
        assert types[..i] == types;
        data := Some(controls);
      }
    }

    /** The checked offered types, in form order. */
    method BuildRequestData() returns (restrictedItemTypes: seq<CipherType>)
      ensures data.None? ==> restrictedItemTypes == []
      ensures data.Some? ==> restrictedItemTypes == CheckedAmong(data.value, AvailableTypes())
      ensures Login !in restrictedItemTypes
      ensures NoDuplicates(restrictedItemTypes)
    {
      restrictedItemTypes := [];
      var types := AvailableTypes();
      AvailableTypesFacts();
      var i := 0;
      while i < |types|
        invariant 0 <= i <= |types|
        invariant data.None? ==> restrictedItemTypes == []
        invariant data.Some? ==> restrictedItemTypes == CheckedAmong(data.value, types[..i])
      {
        assert types[..i + 1][..i] == types[..i];
        var controlName := ControlName(types[i]);
        if data.Some? && controlName in data.value && data.value[controlName] {
          restrictedItemTypes := restrictedItemTypes + [types[i]];
        }
        i := i + 1;
      }
      assert types[..i] == types;
      if data.Some? {
        CheckedAmongDistinct(data.value, types);
      }
    }
  }

  /** A freshly initialised form loaded from a payload sends back exactly the
      offered types that the payload lists, and the decoder agrees. */
  method LoadAndResubmit(responseData: Json, parse: string -> Option<Json>) returns (request: seq<CipherType>)
    requires Truthy(responseData)
    ensures request == SelectedAmong(AvailableTypes(), StoredTypes(responseData))
    ensures RestrictedTypes(RequestPayload(request), parse) == request
  {
    var form := new RestrictedItemTypesPolicyComponent();
    form.NgOnInit();
    form.LoadData(responseData);
    request := form.BuildRequestData();
    LoadThenBuildRoundTrip(responseData);
    DecoderReadsRequest(request, parse);
  }
}

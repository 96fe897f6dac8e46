/** The classes of the MOST volume library, each method proved to perform the protocol's step. */
module MostVolumeDevices {
  import opened Options
  import opened MostVolumeProtocol

  /** The binding around the library: it arms a one-shot timer for every service request, and it carries at most
      one message to the bus and its answer back. */
  class Host {
    var timers: seq<nat>
    var inFlight: DeviceValue?
    var wireAddress: nat
    var wirePayload: seq<byte>

    constructor ()
      ensures timers == [] && inFlight == null
    {
      timers, inFlight, wireAddress, wirePayload := [], null, 0, [];
    }

    /** wrap_volume_service_cb: arms a timer with the time-out. */
    method ServiceCb(timeout: nat)
      modifies this`timers
      ensures timers == old(timers) + [timeout]
    {
      timers := timers + [timeout];
    }

    /** wrap_ucs_i2cwrite: copies the payload into a request for the bus; `accept` is the bus's decision. */
    method WriteI2c(sender: DeviceValue, address: nat, data: array<byte>, size: nat, accept: bool) returns (ret: int)
      requires size <= data.Length
      modifies this`inFlight, this`wireAddress, this`wirePayload
      ensures ret == 0 <==> accept
      ensures accept ==> inFlight == sender && wireAddress == address && wirePayload == data[..size]
      ensures !accept ==>
        inFlight == old(inFlight) && wireAddress == old(wireAddress) && wirePayload == old(wirePayload)
    {
      if !accept {
        return -1;
      }
      inFlight, wireAddress, wirePayload := sender, address, data[..size];
      ret := 0;
    }
  }

  /** The timers that an answer of the bus adds: none if the service has been requested already. */
  function Armed(requested: bool, result: byte): seq<nat> {
    if requested then [] else if result == 0 then [TIME_NOW] else [TIME_RETRIGGER]
  }

  /** The library sees the absolute status of the bus, cut to a byte. */
  function StatusByte(status: int): byte {
    (if status < 0 then -status else status) % 256
  }

  /** An answer confirms exactly when 256 divides the status, so an error of -256 confirms as well. */
  lemma AnswerConfirms(v: Val, status: int)
    requires v.transmitted != v.actual
    ensures Confirm(v, StatusByte(status)).actual == v.transmitted <==> status % 256 == 0
    ensures Confirm(v, StatusByte(-256)).actual == v.transmitted
  {
  }

  class DeviceValue {
    const address: nat
    const kind: Kind
    const key: nat
    const txPayload: array<byte>
    const txPayloadSize: nat := 3
    var isAvailable: bool
    var isBusy: bool
    var targetValue: byte
    var transmittedValue: byte
    var actualValue: byte
    var resultContainer: DeviceContainer?

    ghost predicate Valid() {
      txPayload.Length == 20
    }

    ghost function Abs(): (v: Val)
      requires Valid()
      reads this, txPayload
      ensures v.key == key && v.address == address
    {
      Val(address, kind, key, isAvailable, isBusy, targetValue, transmittedValue, actualValue, txPayload[..3])
    }

    constructor (address: nat, kind: Kind, key: nat)
      ensures Valid() && fresh(txPayload)
      ensures !isAvailable && !isBusy && targetValue == actualValue == 1 && resultContainer == null
      ensures this.address == address && this.kind == kind && this.key == key
    {
      this.address, this.kind, this.key := address, kind, key;
      isAvailable, isBusy, targetValue, actualValue, transmittedValue := false, false, 1, 1, 1;
      resultContainer := null;
      txPayload := new byte[20];
      new;
      txPayload[0], txPayload[1], txPayload[2] := 7, 0x03, 0xFF;
    }

    method SetValue(value: byte)
      requires Valid()
      modifies this`targetValue
      ensures Abs() == old(Abs()).(target := value)
    {
      targetValue := value;
    }

    method SetAvailable(active: bool)
      requires Valid()
      modifies this`isAvailable, this`actualValue
      ensures Abs() == old(Abs()).(available := active, actual := 1)
    {
      isAvailable := active;
      actualValue := 1;
    }

    method NeedsUpdate() returns (b: bool)
      requires Valid()
      ensures b == RequiresUpdate(Abs())
    {
      b := isAvailable && !isBusy && targetValue != actualValue;
    }

    /** Writes the control byte and the volume, high byte first, into the payload buffer. */
    method ApplyMostValue(value: byte)
      requires Valid()
      modifies txPayload
      ensures Abs() == old(Abs()).(payload := Payload(value, kind))
    {
      var tmp: nat;
      match kind {
      case Left =>
        tmp := 0x80 + 0x37F - 0x37F * value / 0xFF;
        txPayload[0] := 8;
      case Right =>
        tmp := 0x80 + 0x37F - 0x37F * value / 0xFF;
        txPayload[0] := 9;
      case Master =>
        tmp := 0x100 + 0x2FF - 0x2FF * value / 0xFF;
        txPayload[0] := 7;
      }
      assert tmp == Volume(value, kind);
      txPayload[1] := tmp / 256;
      txPayload[2] := tmp % 256;
      assert txPayload[..3] == Payload(value, kind);
    }

    method FireUpdateMessage(host: Host, container: DeviceContainer, accept: bool) returns (ok: bool)
      requires Valid()
      modifies this`transmittedValue, this`isBusy, this`resultContainer, txPayload, host`inFlight, host`wireAddress,
        host`wirePayload
      ensures Abs() == Fire(old(Abs()), accept)
      ensures ok == (accept && old(isAvailable && !isBusy))
      ensures ok ==>
        resultContainer == container && host.inFlight == this && host.wireAddress == address
        && host.wirePayload == txPayload[..3]
      ensures !ok ==> resultContainer == old(resultContainer)
      ensures !ok ==>
        host.inFlight == old(host.inFlight) && host.wireAddress == old(host.wireAddress)
        && host.wirePayload == old(host.wirePayload)
    {
      ApplyMostValue(targetValue);
      if isAvailable && !isBusy {
        var ret := host.WriteI2c(this, address, txPayload, txPayloadSize, accept);
        if ret == 0 {
          transmittedValue := targetValue;
          isBusy := true;
          resultContainer := container;
          return true;
        }
      }
      ok := false;
    }

    /** The container to notify, if there is one, and its host. */
    ghost function Listener(): set<DeviceContainer>
      reads this
    {
      if resultContainer == null then {} else {resultContainer}
    }

    ghost function ListenerHost(): set<Host>
      reads this
    {
      if resultContainer == null then {} else {resultContainer.host}
    }

    /** The answer of the bus: a confirmed value is applied, the container, if any, is notified, and the value is
        free again. */
    method HandleI2cResult(result: byte)
      requires Valid() && (resultContainer != null ==> resultContainer.Valid())
      modifies this`actualValue, this`isBusy, this`resultContainer
      modifies Listener()`txBusy, Listener()`serviceRequested, ListenerHost()`timers
      ensures Abs() == Confirm(old(Abs()), result) && resultContainer == null
      ensures var c := old(resultContainer); c != null ==>
        !c.txBusy && c.serviceRequested && c.host.timers == old(c.host.timers) + Armed(old(c.serviceRequested), result)
    {
      if result == 0 {
        actualValue := transmittedValue;
      }
      if resultContainer != null {
        resultContainer.HandleI2cResult(result);
      }
      resultContainer := null;
      isBusy := false;
    }
  }

  /** The values of the container's list, and of their payload buffers. */
  ghost function Buffers(values: seq<DeviceValue>): set<object> {
    set i | 0 <= i < |values| :: values[i].txPayload
  }

  ghost predicate ValidValues(values: seq<DeviceValue>) {
    && (forall i :: 0 <= i < |values| ==> values[i].Valid())
    && (forall i, j :: 0 <= i < j < |values| ==> values[i] != values[j] && values[i].txPayload != values[j].txPayload)
  }

  ghost function AbsValues(values: seq<DeviceValue>): (r: seq<Val>)
    requires ValidValues(values)
    reads values, Buffers(values)
    ensures |r| == |values| && forall i :: 0 <= i < |values| ==> r[i] == values[i].Abs()
  {
    if values == [] then [] else AbsValues(values[..|values| - 1]) + [values[|values| - 1].Abs()]
  }

  ghost function Position(values: seq<DeviceValue>, v: DeviceValue): (r: nat)
    requires v in values
    ensures r < |values| && values[r] == v
  {
    var i :| 0 <= i < |values| && values[i] == v; i
  }

  lemma {:induction false} ScanStops(values: seq<Val>, idx: nat, turns: nat)
    requires turns > 0 ==> |values| > 0
    ensures Scan(values, idx, turns).1 ==> RequiresUpdate(values[Scan(values, idx, turns).0])
    decreases turns
  {
    if turns > 0 && !RequiresUpdate(values[NextIndex(idx, |values|)]) {
      ScanStops(values, NextIndex(idx, |values|), turns - 1);
    }
  }

  class DeviceContainer {
    var idxProcessing: nat
    var values: seq<DeviceValue>
    var txBusy: bool
    var serviceRequested: bool
    const host: Host

    ghost predicate Valid()
      reads this, host, values
    {
      && ValidValues(values)
      && (idxProcessing < |values| || idxProcessing == |values| == 0)
      && (host.inFlight != null ==> host.inFlight in values && host.inFlight.resultContainer == this)
    }

    ghost function Abs(): State
      requires Valid()
      reads this, host, values, Buffers(values)
    {
      State(AbsValues(values), idxProcessing, txBusy, serviceRequested, host.timers,
            if host.inFlight == null then None
            else Some(Message(Position(values, host.inFlight), host.wireAddress, host.wirePayload)))
    }

    /** Construction, AssignService and RegisterValues: processing starts with the first value of the list. */
    constructor (host: Host, list: seq<DeviceValue>)
      requires ValidValues(list) && host.timers == [] && host.inFlight == null
      requires forall i :: 0 <= i < |list| ==>
        !list[i].isAvailable && !list[i].isBusy && list[i].targetValue == list[i].actualValue == 1
      ensures Valid() && values == list && this.host == host && Initial(Abs())
    {
      this.host := host;
      values := list;
      idxProcessing := if |list| > 0 then |list| - 1 else 0;
      txBusy, serviceRequested := false, false;
    }

    method RequestService(timeout: nat)
      requires Valid()
      modifies this`serviceRequested, host`timers
      ensures Valid() && Abs() == MostVolumeProtocol.RequestService(old(Abs()), timeout)
      ensures serviceRequested && host.timers == old(host.timers) + if old(serviceRequested) then [] else [timeout]
    {
      if !serviceRequested {
        serviceRequested := true;
        host.ServiceCb(timeout);
      }
    }

    method IncrementProcIndex()
      requires Valid() && |values| > 0
      modifies this`idxProcessing
      ensures Valid() && idxProcessing == NextIndex(old(idxProcessing), |values|)
      ensures Abs() == old(Abs()).(idx := idxProcessing)
    {
      if idxProcessing + 1 >= |values| {
        idxProcessing := 0;
      } else {
        idxProcessing := idxProcessing + 1;
      }
    }

    method SetTargets(key: nat, value: byte) returns (required: bool)
      requires Valid()
      modifies values`targetValue
      ensures Valid() && Abs() == old(Abs()).(values := Retarget(old(Abs()).values, key, value))
      ensures required <==>
        exists i :: 0 <= i < |values| && Abs().values[i].key == key && RequiresUpdate(Abs().values[i])
    {
      hide AbsValues, RequiresUpdate, Position, Buffers, DeviceValue.Abs;
      ghost var before := AbsValues(values);
      ghost var after := Retarget(before, key, value);
      required := false;
      for idx := 0 to |values|
        modifies values`targetValue
        invariant forall i :: 0 <= i < |values| ==> values[i].Abs() == if i < idx then after[i] else before[i]
        invariant required <==> exists i :: 0 <= i < idx && after[i].key == key && RequiresUpdate(after[i])
      {
        assert values[idx].Abs() == before[idx];
        if values[idx].key == key {
          values[idx].SetValue(value);
          var b := values[idx].NeedsUpdate();
          assert values[idx].Abs() == after[idx];
          if b {
            required := true;
          }
        }
        assert forall i :: 0 <= i < |values| && i != idx ==> values[i].Abs() == if i < idx then after[i] else before[i];
      }
      assert AbsValues(values) == after;
    }

    method SetValue(key: nat, value: byte)
      requires Valid()
      modifies this`serviceRequested, host`timers, values`targetValue
      ensures Valid() && Abs() == MostVolumeProtocol.SetValue(old(Abs()), key, value)
    {
      hide AbsValues, RequiresUpdate, Retarget, MostVolumeProtocol.RequestService;
      var required := SetTargets(key, value);
      ghost var t := Abs();
      if required && !txBusy {
        RequestService(TIME_NOW);
      }
    }
  
    method ChangeNodeAvailable(address: nat, available: bool)
      requires Valid()
      modifies this`serviceRequested, host`timers, values`isAvailable, values`actualValue
      ensures Valid() && Abs() == MostVolumeProtocol.ChangeNodeAvailable(old(Abs()), address, available)
    {
      hide AbsValues, Reswitch, Position, Buffers, DeviceValue.Abs, MostVolumeProtocol.RequestService;
      ghost var before := AbsValues(values);
      ghost var after := Reswitch(before, address, available);
      for idx := 0 to |values|
        modifies values`isAvailable, values`actualValue
        invariant forall i :: 0 <= i < |values| ==> values[i].Abs() == if i < idx then after[i] else before[i]
      {
        assert values[idx].Abs() == before[idx];
        if values[idx].address == address {
          values[idx].SetAvailable(available);
        }
        assert values[idx].Abs() == after[idx];
        assert forall i :: 0 <= i < |values| && i != idx ==> values[i].Abs() == if i < idx then after[i] else before[i];
      }
      assert AbsValues(values) == after;
      if available {
        RequestService(TIME_RETRIGGER);
      }
    }

    method HandleI2cResult(result: byte)
      requires Valid()
      modifies this`txBusy, this`serviceRequested, host`timers
      ensures Valid() && !txBusy && serviceRequested
      ensures host.timers == old(host.timers) + Armed(old(serviceRequested), result)
    {
      txBusy := false;
      RequestService(if result == 0 then TIME_NOW else TIME_RETRIGGER);
    }

    /** Offers the value at the processing index to the bus. */
    method FireCurrent(v: DeviceValue, accept: bool) returns (error: bool)
      requires Valid() && |values| > 0 && v == values[idxProcessing] && RequiresUpdate(v.Abs())
      modifies this`txBusy, host`inFlight, host`wireAddress, host`wirePayload
      modifies v`transmittedValue, v`isBusy, v`resultContainer, v.txPayload
      ensures Valid() && error == !accept
      ensures var s := old(Abs());
        var fired := Fire(s.values[s.idx], accept);
        var t := s.(values := s.values[s.idx := fired]);
        Abs() == if accept then t.(txBusy := true, wire := Some(Message(s.idx, fired.address, fired.payload))) else t
    {
      hide AbsValues, Fire;
      ghost var before := AbsValues(values);
      assert v.Abs() == before[idxProcessing];
      var ok := v.FireUpdateMessage(host, this, accept);
      if ok {
        txBusy := true;
      }
      error := !ok;
      assert forall i :: 0 <= i < |values| && i != idxProcessing ==> values[i].Abs() == before[i];
      assert AbsValues(values) == before[idxProcessing := v.Abs()];
    }

    /** One cycle from the value after the one processed last, up to the first that needs an update. */
    method FindNext() returns (found: bool)
      requires Valid()
      modifies this`idxProcessing
      ensures Valid() && (idxProcessing, found) == Scan(old(Abs()).values, old(idxProcessing), |values|)
      ensures Abs() == old(Abs()).(idx := idxProcessing)
    {
      hide AbsValues, RequiresUpdate, NextIndex, Position, DeviceValue.Abs;
      ghost var vals := AbsValues(values);
      for cnt := 0 to |values|
        modifies this`idxProcessing
        invariant Valid()
        invariant Scan(vals, old(idxProcessing), |values|) == Scan(vals, idxProcessing, |values| - cnt)
      {
        IncrementProcIndex();
        found := values[idxProcessing].NeedsUpdate();
        if found {
          return;
        }
      }
      found := false;
    }

    /** The service routine: the next value that needs an update is offered to the bus; if the bus refuses, the
        service is requested again. */
    method Update(accept: bool)
      requires Valid()
      modifies this`idxProcessing, this`txBusy, this`serviceRequested
      modifies host`timers, host`inFlight, host`wireAddress, host`wirePayload
      modifies values`transmittedValue, values`isBusy, values`resultContainer, Buffers(values)
      ensures Valid() && Abs() == MostVolumeProtocol.Update(old(Abs()), accept)
    {
      hide AbsValues, Fire, Scan, RequiresUpdate, Position, MostVolumeProtocol.RequestService, DeviceValue.Abs;
      serviceRequested := false;
      if txBusy {
        return;
      }
      ghost var vals := AbsValues(values);
      ScanStops(vals, idxProcessing, |values|);
      var found := FindNext();
      if found {
        var error := FireCurrent(values[idxProcessing], accept);
        if error {
          RequestService(TIME_RETRIGGER);
        }
      }
    }

    // ------------------------------------------------------------ the steps of the host

    /** wrap_volume_service_timeout_cb: an armed timer fires and the service routine runs. */
    method TimerFires(accept: bool)
      requires Valid() && host.timers != []
      modifies this`idxProcessing, this`txBusy, this`serviceRequested
      modifies host`timers, host`inFlight, host`wireAddress, host`wirePayload
      modifies values`transmittedValue, values`isBusy, values`resultContainer, Buffers(values)
      ensures Valid() && Abs() == Step(old(Abs()), Timer(accept))
    {
      hide AbsValues, MostVolumeProtocol.Update, Position;
      ghost var s := Abs();
      host.timers := host.timers[1..];
      assert AbsValues(values) == s.values;
      Update(accept);
    }

    /** wrap_ucs_i2cwrite_cb: the bus answers the message in flight. */
    method BusAnswers(status: int)
      requires Valid() && host.inFlight != null
      modifies this`txBusy, this`serviceRequested, host`timers, host`inFlight
      modifies host.inFlight`actualValue, host.inFlight`isBusy, host.inFlight`resultContainer
      ensures Valid() && Abs() == Step(old(Abs()), Ack(StatusByte(status)))
    {
      hide AbsValues, Confirm;
      ghost var before := AbsValues(values);
      var v := host.inFlight;
      ghost var i := Position(values, v);
      host.inFlight := null;
      assert v.Abs() == before[i] && v.resultContainer == this;
      v.HandleI2cResult(StatusByte(status));
      assert forall j :: 0 <= j < |values| && j != i ==> values[j].Abs() == before[j];
      assert AbsValues(values) == before[i := v.Abs()];
    }
  }
}

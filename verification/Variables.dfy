/**
 * Listing the UEFI variables: the grow-and-retry loop of `vars` and the two-call read of `getkey`,
 * against the variable services (sections 8.2.1 and 8.2.2 of UEFI 2.10).
 */
module Variables {
  import opened Bytes
  import opened Unicode

  type Guid = seq<byte>

  datatype Variable = Variable(name: seq<uint16>, guid: Guid, data: seq<byte>)

  datatype Status = Success | BufferTooSmall | NotFound | InvalidParameter

  /** What is printed for one variable. */
  datatype Line = Line(text: seq<scalar>, guid: Guid, value: seq<byte>)

  /** The variables of the firmware: names are not empty and have no NUL, and no variable is there twice. */
  predicate Store(vs: seq<Variable>) {
    && (forall i :: 0 <= i < |vs| ==> |vs[i].name| > 0 && 0 !in vs[i].name)
    && (forall i, j :: 0 <= i < j < |vs| ==> vs[i].name != vs[j].name || vs[i].guid != vs[j].guid)
  }

  /** The bytes a name takes with its NUL. */
  function NameSize(name: seq<uint16>): nat { 2 * (|name| + 1) }

  // ----- the services -----

  /** The position of the variable, or the number of variables. */
  function Find(vs: seq<Variable>, name: seq<uint16>, guid: Guid): (k: nat)
    ensures k <= |vs|
    ensures k < |vs| ==> vs[k].name == name && vs[k].guid == guid
    ensures forall i :: 0 <= i < k ==> vs[i].name != name || vs[i].guid != guid
  {
    if |vs| == 0 || (vs[0].name == name && vs[0].guid == guid) then 0 else 1 + Find(vs[1..], name, guid)
  }

  lemma FoundAt(vs: seq<Variable>, k: nat)
    requires Store(vs) && k < |vs|
    ensures Find(vs, vs[k].name, vs[k].guid) == k
  {
  }

  /**
   * `GetNextVariableName`: the name in the buffer up to its NUL says where the last call was; a call that
   * does not fit reports the size needed and leaves the buffer alone; success updates the size as well.
   */
  method GetNextVariableName(vs: seq<Variable>, size: nat, buffer: array<uint16>, guid: Guid)
      returns (status: Status, newSize: nat, newGuid: Guid)
    requires 0 in buffer[..]
    requires size <= 2 * buffer.Length
    modifies buffer
    ensures var name := old(Terminated(buffer[..]));
            var next := if name == [] then 0 else Find(vs, name, guid) + 1;
            if next > |vs| then status == InvalidParameter && newSize == size && newGuid == guid && buffer[..] == old(buffer[..])
            else if next == |vs| then status == NotFound && newSize == size && newGuid == guid && buffer[..] == old(buffer[..])
            else if size < NameSize(vs[next].name) then
              && status == BufferTooSmall && newSize == NameSize(vs[next].name) && newGuid == guid
              && buffer[..] == old(buffer[..])
            else
              && status == Success && newSize == NameSize(vs[next].name) && newGuid == vs[next].guid
              && buffer[..|vs[next].name| + 1] == vs[next].name + [0]
  {
    var name := Terminated(buffer[..]);
    var next := if name == [] then 0 else Find(vs, name, guid) + 1;
    if next > |vs| {
      return InvalidParameter, size, guid;
    }
    if next == |vs| {
      return NotFound, size, guid;
    }
    var v := vs[next];
    if size < NameSize(v.name) {
      return BufferTooSmall, NameSize(v.name), guid;
    }
    forall i | 0 <= i <= |v.name| {
      buffer[i] := if i < |v.name| then v.name[i] else 0;
    }
    return Success, NameSize(v.name), v.guid;
  }

  /** `GetVariable`: too small a buffer is told the size, and is left alone. */
  method GetVariable(vs: seq<Variable>, key: seq<uint16>, guid: Guid, size: nat, data: array<byte>)
      returns (status: Status, newSize: nat)
    requires 0 in key && size <= data.Length
    modifies data
    ensures var k := Find(vs, Terminated(key), guid);
            if k == |vs| then status == NotFound && newSize == size && data[..] == old(data[..])
            else if size < |vs[k].data| then status == BufferTooSmall && newSize == |vs[k].data| && data[..] == old(data[..])
            else status == Success && newSize == |vs[k].data| && data[..|vs[k].data|] == vs[k].data
  {
    var k := Find(vs, Terminated(key), guid);
    if k == |vs| {
      return NotFound, size;
    }
    var value := vs[k].data;
    if size < |value| {
      return BufferTooSmall, |value|;
    }
    forall i | 0 <= i < |value| {
      data[i] := value[i];
    }
    return Success, |value|;
  }

  // ----- getkey -----

  /** A variable's exact bytes, or None when there is no such variable; empty variables count as not found. */
  method GetKey(vs: seq<Variable>, key: seq<uint16>, guid: Guid) returns (value: Option<seq<byte>>, found: bool)
    requires 0 in key
    ensures var k := Find(vs, Terminated(key), guid);
            if k == |vs| then value == None && !found
            else value == Some(vs[k].data) && (found <==> |vs[k].data| > 0)
  {
    var data := new byte[16];
    var status, dataSize := GetVariable(vs, key, guid, 0, data);
    if status == NotFound {
      return None, false;
    } else if status == BufferTooSmall {
      data := new byte[dataSize];
      status, dataSize := GetVariable(vs, key, guid, dataSize, data);
      if status != Success {
        return None, false;
      }
      assert data[..] == data[..dataSize];
      return Some(data[..]), true;
    } else {
      return Some(data[0..dataSize]), false;
    }
  }

  // ----- vars -----

  function Listing(vs: seq<Variable>): (ls: seq<Line>)
    ensures |ls| == |vs|
  {
    seq(|vs|, i requires 0 <= i < |vs| => Line(Decode(vs[i].name), vs[i].guid, vs[i].data))
  }

  /** The name the firmware is asked to continue after, when `k` variables have been visited. */
  function Current(vs: seq<Variable>, k: nat): seq<uint16>
    requires k <= |vs|
  {
    if k == 0 then [] else vs[k - 1].name
  }

  /** The buffer holds the current name with its NUL, whatever lies behind it. */
  predicate HoldsName(buffer: seq<uint16>, name: seq<uint16>) {
    |name| < |buffer| && buffer[..|name| + 1] == name + [0]
  }

  lemma HeldName(buffer: seq<uint16>, name: seq<uint16>)
    requires HoldsName(buffer, name) && 0 !in name
    ensures Terminated(buffer) == name && 0 in buffer
  {
    assert buffer == name + [0] + buffer[|name| + 1..];
    TerminatedAt(name, buffer[|name| + 1..]);
    assert buffer[..|name| + 1][|name|] == 0;
  }

  /** The regrow: room for twice the units needed, the old units copied, and the slice of the units needed. */
  method Regrow(varKey: array<uint16>, varKeyLen: nat, varKeySize: nat, ghost name: seq<uint16>)
      returns (newVarKey: array<uint16>)
    requires varKeyLen <= varKey.Length && HoldsName(varKey[..varKeyLen], name)
    requires |name| < varKeySize / 2
    ensures fresh(newVarKey) && newVarKey.Length == varKeySize
    ensures HoldsName(newVarKey[..varKeySize / 2], name)
  {
    newVarKey := new uint16[varKeySize](_ => 0);
    forall i | 0 <= i < varKeyLen && i < varKeySize {
      newVarKey[i] := varKey[i];
    }
    assert newVarKey[..varKeySize / 2][..|name| + 1] == varKey[..varKeyLen][..|name| + 1];
  }

  /** The line for the variable the firmware has just named. */
  method PrintVariable(vs: seq<Variable>, ghost k: nat, varKey: array<uint16>, varKeySize: nat, vendorGuid: Guid) returns (line: Line)
    requires Store(vs) && k < |vs|
    requires varKeySize == NameSize(vs[k].name) && vendorGuid == vs[k].guid
    requires |vs[k].name| + 1 <= varKey.Length && varKey[..|vs[k].name| + 1] == vs[k].name + [0]
    ensures line == Listing(vs)[k]
  {
    assert varKey[..varKeySize / 2][..(varKeySize - 1) / 2] == varKey[..(varKeySize - 1) / 2];
    var units := varKey[..(varKeySize - 1) / 2];
    var key := varKey[..varKeySize / 2];
    assert key == vs[k].name + [0] + [];
    TerminatedAt(vs[k].name, []);
    FoundAt(vs, k);
    assert key[|vs[k].name|] == 0;
    var value, _ := GetKey(vs, key, vendorGuid);
    line := Line(Decode(units), vendorGuid, value.value);
  }

  /** One call of the service, seen from the loop of `vars`. */
  method AskNext(vs: seq<Variable>, ghost k: nat, varKey: array<uint16>, varKeyLen: nat, varKeySize: nat, vendorGuid: Guid)
      returns (status: Status, newSize: nat, newGuid: Guid)
    requires Store(vs) && k <= |vs|
    requires varKeyLen <= varKey.Length && HoldsName(varKey[..varKeyLen], Current(vs, k))
    requires k > 0 ==> vendorGuid == vs[k - 1].guid
    requires varKeySize <= 2 * varKeyLen
    modifies varKey
    ensures status == NotFound <==> k == |vs|
    ensures status != InvalidParameter
    ensures status == BufferTooSmall <==> k < |vs| && varKeySize < NameSize(vs[k].name)
    ensures k < |vs| ==> newSize == NameSize(vs[k].name)
    ensures status == BufferTooSmall ==> varKey[..] == old(varKey[..]) && newGuid == vendorGuid
    ensures status == Success ==>
      && |vs[k].name| + 1 <= varKeyLen && newGuid == vs[k].guid
      && varKey[..|vs[k].name| + 1] == vs[k].name + [0]
  {
    ghost var name := Current(vs, k);
    assert varKey[..varKeyLen][..|name| + 1] == varKey[..][..|name| + 1];
    HeldName(varKey[..], name);
    ghost var last := if k > 0 then k - 1 else 0;
    if k > 0 {
      FoundAt(vs, last);
    }
    status, newSize, newGuid := GetNextVariableName(vs, varKeySize, varKey, vendorGuid);
  }

  /** Every variable is printed once, in the firmware's order, with its bytes; no variable costs more than two calls. */
  method Vars(vs: seq<Variable>) returns (printed: seq<Line>, calls: nat)
    requires Store(vs)
    ensures printed == Listing(vs)
    ensures calls <= 2 * |vs| + 1
  {
    var varKey := new uint16[1];
    varKey[0] := 0;
    var varKeyLen := 1;
    var varKeySize := 2;
    var vendorGuid: Guid := [];
    printed, calls := [], 0;
    ghost var k: nat, grown := 0, false;
    while true
      invariant k <= |vs| && printed == Listing(vs)[..k]
      // The previous name stays in the buffer, across each regrow.
      invariant 1 <= varKeyLen <= varKey.Length && HoldsName(varKey[..varKeyLen], Current(vs, k))
      invariant k > 0 ==> vendorGuid == vs[k - 1].guid
      invariant varKeySize <= 2 * varKeyLen
      invariant varKeySize == if grown && k < |vs| then NameSize(vs[k].name) else NameSize(Current(vs, k))
      invariant grown ==> k < |vs|
      invariant calls <= 2 * k + if grown then 1 else 0
      invariant fresh(varKey)
      decreases |vs| - k, if grown then 0 else 1
    {
      var status;
      ghost var before := varKey[..];
      status, varKeySize, vendorGuid := AskNext(vs, k, varKey, varKeyLen, varKeySize, vendorGuid);
      calls := calls + 1;
      match status {
        case BufferTooSmall =>
          assert varKey[..varKeyLen] == before[..varKeyLen];
          varKey := Regrow(varKey, varKeyLen, varKeySize, Current(vs, k));
          varKeyLen := varKeySize / 2;
          grown := true;
        case Success =>
          var line := PrintVariable(vs, k, varKey, varKeySize, vendorGuid);
          printed := printed + [line];
          assert varKey[..varKeyLen][..|vs[k].name| + 1] == varKey[..|vs[k].name| + 1];
          k, grown := k + 1, false;
        case NotFound =>
          assert Listing(vs)[..k] == Listing(vs);
          return;
        case InvalidParameter =>
          assert false;
      }
    }
  }
}

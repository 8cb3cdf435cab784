/**
 The two search entry points of devices/ssdp.go. `AnotherSearch` sends an
 M-SEARCH onto the group and returns a snapshot of the registry; `Search`
 puts the results of an external one-shot discovery client in front of that
 snapshot. Whether the socket exists, whether the send succeeded and what
 the external client returned are parameters.
 */
module Discovery {
  import opened Wrappers
  import opened ByteStrings
  import opened Services
  import opened Ssdp
  import opened Registry

  /** No key occurs twice. */
  predicate Distinct(ks: seq<Bytes>) {
    forall i, j :: 0 <= i < j < |ks| ==> ks[i] != ks[j]
  }

  /**
   `AnotherSearch`. Without a socket nothing is sent and the result is empty;
   with one, the query is sent, and if the send fails the result is empty.
   Otherwise the result holds every registry entry exactly once, in an order
   the caller cannot rely on (Go's map iteration order); `order` names the
   key each element came from.
   */
  method AnotherSearch(socketOpen: bool, sendOk: bool, reg: DeviceMap, searchType: Bytes, waitSec: int)
    returns (sent: Option<Bytes>, list: seq<Service>, ghost order: seq<Bytes>)
    ensures sent == (if socketOpen then Some(BuildSearch(searchType, waitSec)) else None)
    ensures !(socketOpen && sendOk) ==> list == []
    ensures socketOpen && sendOk ==> |list| == |reg|
    ensures socketOpen && sendOk ==> forall v :: v in reg.Values <==> v in list
    ensures |order| == |list| && Distinct(order)
    ensures forall i :: 0 <= i < |list| ==> order[i] in reg && list[i] == reg[order[i]]
  {
    order := [];
    if !socketOpen {
      return None, [], order;
    }
    sent := Some(BuildSearch(searchType, waitSec));
    if !sendOk {
      return sent, [], order;
    }
    list, order := Snapshot(reg);
  }

  /**
   The copy loop of `AnotherSearch`: one element per registry entry, taken
   through its key, every key exactly once and every value present.
   */
  method Snapshot(reg: DeviceMap) returns (list: seq<Service>, ghost order: seq<Bytes>)
    ensures |list| == |reg|
    ensures forall v :: v in reg.Values <==> v in list
    ensures |order| == |list| && Distinct(order)
    ensures forall i :: 0 <= i < |list| ==> order[i] in reg && list[i] == reg[order[i]]
  {
    list, order := [], [];
    var rest := reg.Keys;
    while rest != {}
      invariant rest <= reg.Keys
      invariant |order| == |list| && Distinct(order)
      invariant forall i :: 0 <= i < |order| ==> order[i] in reg && order[i] !in rest && list[i] == reg[order[i]]
      invariant forall k :: k in reg ==> k in rest || k in order
      invariant |order| + |rest| == |reg|
      decreases |rest|
    {
      var k :| k in rest;
      list := list + [reg[k]];
      order := order + [k];
      rest := rest - {k};
    }
    EveryValueListed(reg, list, order);
  }

  /** When every key was visited, every value of the registry is in the list. */
  lemma EveryValueListed(reg: DeviceMap, list: seq<Service>, order: seq<Bytes>)
    requires |order| == |list|
    requires forall i :: 0 <= i < |order| ==> order[i] in reg && list[i] == reg[order[i]]
    requires forall k :: k in reg ==> k in order
    ensures forall v :: v in reg.Values ==> v in list
  {
    forall v | v in reg.Values ensures v in list {
      var k :| k in reg && reg[k] == v;
      var i :| 0 <= i < |order| && order[i] == k;
      assert list[i] == v;
    }
  }

  /** An element of a combined search result, tagged with where it came from. */
  datatype Found<D> = External(device: D) | Local(service: Service)

  /**
   `Search`. If the external client fails, its error is returned and no
   query is sent. Otherwise the result is the external list, in order, then
   the `AnotherSearch` snapshot; nothing is removed as a duplicate.
   */
  method Search<D, E>(external: Result<seq<D>, E>, socketOpen: bool, sendOk: bool,
                      reg: DeviceMap, searchType: Bytes, waitSec: int)
    returns (r: Result<seq<Found<D>>, E>, sent: Option<Bytes>)
    ensures external.Failure? ==> r == Failure(external.error) && sent == None
    ensures external.Success? ==> r.Success? && sent == (if socketOpen then Some(BuildSearch(searchType, waitSec)) else None)
    ensures external.Success? && r.Success? ==>
      |r.value| == |external.value| + (if socketOpen && sendOk then |reg| else 0)
    ensures external.Success? && r.Success? ==>
      forall i :: 0 <= i < |external.value| ==> r.value[i] == External(external.value[i])
    ensures external.Success? && r.Success? ==>
      forall i :: |external.value| <= i < |r.value| ==> r.value[i].Local? && r.value[i].service in reg.Values
    ensures external.Success? && r.Success? && socketOpen && sendOk ==>
      forall v :: v in reg.Values ==> exists i :: |external.value| <= i < |r.value| && r.value[i] == Local(v)
  {
    if external.Failure? {
      return Failure(external.error), None;
    }
    var devices := external.value;
    var tagged := TagExternal(devices);
    var list;
    ghost var order;
    sent, list, order := AnotherSearch(socketOpen, sendOk, reg, searchType, waitSec);
    var results := AppendLocal(tagged, list);
    LocalTail(reg, results, |devices|, list, order);
    return Success(results), sent;
  }

  /** The first copy loop of `Search`: every external device, in order. */
  method TagExternal<D>(devices: seq<D>) returns (out: seq<Found<D>>)
    ensures |out| == |devices|
    ensures forall j :: 0 <= j < |devices| ==> out[j] == External(devices[j])
  {
    out := [];
    var i := 0;
    while i < |devices|
      invariant 0 <= i <= |devices| && |out| == i
      invariant forall j :: 0 <= j < i ==> out[j] == External(devices[j])
    {
      out := out + [External(devices[i])];
      i := i + 1;
    }
  }

  /** The second copy loop of `Search`: the snapshot appended, in order, after what is there. */
  method AppendLocal<D>(prefix: seq<Found<D>>, list: seq<Service>) returns (out: seq<Found<D>>)
    ensures |out| == |prefix| + |list|
    ensures forall j :: 0 <= j < |prefix| ==> out[j] == prefix[j]
    ensures forall j :: 0 <= j < |list| ==> out[|prefix| + j] == Local(list[j])
  {
    out := prefix;
    var n := 0;
    while n < |list|
      invariant 0 <= n <= |list| && |out| == |prefix| + n
      invariant forall j :: 0 <= j < |prefix| ==> out[j] == prefix[j]
      invariant forall j :: 0 <= j < n ==> out[|prefix| + j] == Local(list[j])
    {
      out := out + [Local(list[n])];
      n := n + 1;
    }
  }

  /**
   The elements of a combined result from position `off` on are the snapshot,
   in order: each is a registry value, and a snapshot holding every value puts
   every value there.
   */
  lemma LocalTail<D>(reg: DeviceMap, results: seq<Found<D>>, off: nat, list: seq<Service>, order: seq<Bytes>)
    requires |results| == off + |list| && |order| == |list|
    requires forall j :: 0 <= j < |list| ==> results[off + j] == Local(list[j])
    requires forall i :: 0 <= i < |list| ==> order[i] in reg && list[i] == reg[order[i]]
    ensures forall j :: off <= j < |results| ==> results[j].Local? && results[j].service in reg.Values
    ensures (forall v :: v in reg.Values ==> v in list) ==>
      forall v :: v in reg.Values ==> exists j :: off <= j < |results| && results[j] == Local(v)
  {
    forall j | off <= j < |results|
      ensures results[j].Local? && results[j].service in reg.Values
    {
      var k := j - off;
      assert results[j] == Local(list[k]) && list[k] == reg[order[k]];
    }
    if forall v :: v in reg.Values ==> v in list {
      forall v | v in reg.Values
        ensures exists j :: off <= j < |results| && results[j] == Local(v)
      {
        var k :| 0 <= k < |list| && list[k] == v;
        assert results[off + k] == Local(v);
      }
    }
  }
}

/** Choosing the interfaces Suricata captures on: the caller's list, or else every
    interface the host reports as up and not loopback. */
module Interfaces {
  import opened Wrappers
  import opened Seqs

  /** One entry of the host's interface table: its name and the two flags the
      filter reads (`net.FlagLoopback`, `net.FlagUp`). */
  datatype NetInterface = NetInterface(name: string, loopback: bool, up: bool)

  /** Why discovery found nothing: the table could not be read, or nothing in it
      qualified. */
  datatype DiscoveryError = EnumerationFailed | NoSuitableInterface

  /** The loopback flag is clear and the up flag is set. */
  predicate Usable(i: NetInterface)
  {
    !i.loopback && i.up
  }

  function UsableName(i: NetInterface): Option<string>
  {
    if Usable(i) then Some(i.name) else None
  }

  /** The names of the usable interfaces, in table order. */
  function NonLoopbackUp(table: seq<NetInterface>): (names: seq<string>)
    ensures |names| <= |table|
    ensures forall n :: n in names <==> exists i :: 0 <= i < |table| && Usable(table[i]) && table[i].name == n
  {
    var names := FilterMap(table, UsableName);
    assert forall i :: 0 <= i < |table| ==> (UsableName(table[i]).Some? <==> Usable(table[i]));
    names
  }

  /** The filter keeps exactly the usable entries, in table order: its j-th name is
      that of the j-th usable entry. */
  lemma NonLoopbackUpInOrder(table: seq<NetInterface>)
    ensures var names := NonLoopbackUp(table); var idx := Kept(table, UsableName);
      && |names| == |idx|
      && (forall j :: 0 <= j < |idx| ==> idx[j] < |table| && Usable(table[idx[j]]) && names[j] == table[idx[j]].name)
      && (forall j, k :: 0 <= j < k < |idx| ==> idx[j] < idx[k])
      && (forall i :: 0 <= i < |table| && Usable(table[i]) ==> i in idx)
  {
    FilterMapAtKept(table, UsableName);
  }

  /** `getAllNonLoopbackInterfaces`: `enumerated` is what `net.Interfaces()` returned,
      or nothing when it failed. */
  function Discover(enumerated: Option<seq<NetInterface>>): (r: Result<seq<string>, DiscoveryError>)
    ensures enumerated.None? <==> r == Failure(EnumerationFailed)
    ensures r == Failure(NoSuitableInterface) <==>
      enumerated.Some? && forall i :: 0 <= i < |enumerated.value| ==> !Usable(enumerated.value[i])
    ensures r.Success? ==> |r.value| > 0 && r.value == NonLoopbackUp(enumerated.value)
  {
    match enumerated
    case None => Failure(EnumerationFailed)
    case Some(table) =>
      var names := NonLoopbackUp(table);
      if |names| == 0 then
        Failure(NoSuitableInterface)
      else
        assert table[Kept(table, UsableName)[0]].name in names by { NonLoopbackUpInOrder(table); }
        Success(names)
  }

  /** The interface list `ReceiverFunc` works with: the supplied one when it is
      non-empty, otherwise the discovered one. */
  function ChooseInterfaces(supplied: seq<string>, enumerated: Option<seq<NetInterface>>): (r: Result<seq<string>, DiscoveryError>)
    ensures |supplied| > 0 ==> r == Success(supplied)
    ensures |supplied| == 0 ==> r == Discover(enumerated)
    ensures r.Success? ==> |r.value| > 0
  {
    if |supplied| == 0 then Discover(enumerated) else Success(supplied)
  }
}

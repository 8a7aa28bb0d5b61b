/** Types shared by the node and the router. */
module Common {

  datatype Option<+T> = None | Some(value: T)

  /** A node identity. The implementation wraps a UUID; only equality is ever used. */
  datatype NodeId = NodeId(uuid: nat)

  datatype NodeInfo = NodeInfo(id: NodeId, addr: string)

  function InfoIds(infos: seq<NodeInfo>): set<NodeId> {
    set i | 0 <= i < |infos| :: infos[i].id
  }

  lemma InfoIdsInit(infos: seq<NodeInfo>)
    requires infos != []
    ensures InfoIds(infos) == InfoIds(infos[..|infos| - 1]) + {infos[|infos| - 1].id}
  {
    var init := infos[..|infos| - 1];
    assert forall i :: 0 <= i < |init| ==> init[i] == infos[i];
    forall id | id in InfoIds(infos) ensures id in InfoIds(init) + {infos[|infos| - 1].id} {
      var i :| 0 <= i < |infos| && infos[i].id == id;
      assert i < |init| ==> init[i].id == id;
    }
    forall id | id in InfoIds(init) ensures id in InfoIds(infos) {
      var i :| 0 <= i < |init| && init[i].id == id;
      assert infos[i].id == id;
    }
  }

  type Byte = b: int | 0 <= b < 256

  type Bytes = seq<Byte>

  /** Instants and durations are counted in nanoseconds. */
  const MILLISECOND: nat := 1_000_000
  const SECOND: nat := 1_000_000_000

  function Max(a: nat, b: nat): nat { if a < b then b else a }

  function Min(a: nat, b: nat): nat { if a < b then a else b }
}

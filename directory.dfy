/**
 * The id-to-name maps the client builds at start-up (`getChannels`,
 * `getUsers`, `getDMs` in moonsla.go), from the lists the Slack API returned.
 */
module Directory {

  /** One listed entity: its id and the name recorded for it. */
  datatype Entry = Entry(id: string, name: string)

  /** One direct-message channel: its id and the user id of the peer it is with. */
  datatype IM = IM(id: string, peer: string)

  /** The map after recording `entries` in order: a later entry for an id overwrites an earlier one. */
  function Indexed(entries: seq<Entry>): map<string, string>
  {
    if entries == [] then map[]
    else Indexed(entries[..|entries| - 1])[entries[|entries| - 1].id := entries[|entries| - 1].name]
  }

  /**
   * `channels[c.ID] = c.NameNormalized` over the conversations of one listing,
   * and `users[u.ID] = u.RealName` over the users.
   */
  method Index(entries: seq<Entry>) returns (m: map<string, string>)
    ensures m == Indexed(entries)
  {
    m := map[];
    for i := 0 to |entries|
      invariant m == Indexed(entries[..i])
    {
      assert entries[..i + 1][..i] == entries[..i];
      m := m[entries[i].id := entries[i].name];
    }
    assert entries[..|entries|] == entries;
  }

  /** Entry `k` is the last one listing `id`. */
  predicate LastFor(entries: seq<Entry>, id: string, k: int)
  {
    0 <= k < |entries| && entries[k].id == id && forall j :: k < j < |entries| ==> entries[j].id != id
  }

  /**
   * The ids of the map are exactly the listed ids, and each maps to the name of
   * the last entry listing it.
   */
  lemma {:induction false} IndexedMeaning(entries: seq<Entry>, id: string)
    ensures id in Indexed(entries) <==> exists k :: 0 <= k < |entries| && entries[k].id == id
    ensures id in Indexed(entries) ==>
      exists k :: LastFor(entries, id, k) && Indexed(entries)[id] == entries[k].name
    decreases |entries|
  {
    if entries != [] {
      var n := |entries| - 1;
      var init := entries[..n];
      IndexedMeaning(init, id);
      assert forall k :: 0 <= k < n ==> init[k] == entries[k];
      if entries[n].id != id && id in Indexed(init) {
        var k :| LastFor(init, id, k) && Indexed(init)[id] == init[k].name;
        assert LastFor(entries, id, k);
      }
      if entries[n].id == id {
        assert LastFor(entries, id, n);
      }
    }
  }

  /** A user who is a DM's peer names the DM; an unknown peer gives the empty name. */
  function PeerName(peer: string, users: map<string, string>): string
  {
    if peer in users then users[peer] else ""
  }

  /**
   * `getDMs`: each direct-message channel (its id paired with its peer's
   * user id) maps to the peer's name, or to "" when the peer is unknown.
   */
  method IndexDMs(ims: seq<IM>, users: map<string, string>) returns (m: map<string, string>)
    ensures m == Indexed(seq(|ims|, k requires 0 <= k < |ims| => Entry(ims[k].id, PeerName(ims[k].peer, users))))
  {
    ghost var named := seq(|ims|, k requires 0 <= k < |ims| => Entry(ims[k].id, PeerName(ims[k].peer, users)));
    m := map[];
    for i := 0 to |ims|
      invariant m == Indexed(named[..i])
    {
      assert named[..i + 1][..i] == named[..i];
      var name := if ims[i].peer in users then users[ims[i].peer] else "";
      m := m[ims[i].id := name];
    }
    assert named[..|ims|] == named;
  }
}

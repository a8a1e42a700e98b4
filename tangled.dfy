/**
 * The "tangled" network environment (examples/tangled/env.rs): three nodes
 * that players claim and two links that get coloured. Every transition is a
 * pure function returning a new `Network`, or `None` when the move is refused.
 */
module TangledEnv {
  import opened Wrappers

  /** The source defines this file's own `Player` enum, separate from Hex's, so it is declared again here. */
  datatype Player = Red | Blue
  {
    /** `other`: the opponent. */
    function Other(): (o: Player)
      ensures o != this
    {
      match this
      case Red => Blue
      case Blue => Red
    }

    /**
     * `has_claim`: `any` over the given nodes of "held by a player other
     * than this one"; an empty node holds no claim.
     */
    function HasClaim(nodes: seq<Option<Player>>): (claimed: bool)
      ensures claimed <==> exists k :: 0 <= k < |nodes| && nodes[k].Some? && nodes[k].value != this
      decreases |nodes|
    {
      if |nodes| == 0 then false
      else (nodes[0].Some? && nodes[0].value != this) || HasClaim(nodes[1..])
    }
  }

  /** Between two players, "held by someone other than p" means "held by p's opponent". */
  lemma HasClaimOfTwo(p: Player, a: Option<Player>, b: Option<Player>)
    ensures p.HasClaim([a, b]) <==> a == Some(p.Other()) || b == Some(p.Other())
  {
    assert [a, b][1..] == [b];
  }

  /** `other` undoes itself. */
  lemma OtherIsInvolution(p: Player)
    ensures p.Other().Other() == p
  {
  }

  datatype Color = Grey | Green | Purple

  datatype Action =
    | Claim0(player: Player)
    | Claim1(player: Player)
    | Claim2(player: Player)
    | Color01(color: Color)
    | Color12(color: Color)

  datatype Network = Network(
    node0: Option<Player>,
    node1: Option<Player>,
    node2: Option<Player>,
    link01: Option<Color>,
    link12: Option<Color>)
  {
    /** How many of the five fields are set. */
    function Filled(): nat
    {
      (if node0.Some? then 1 else 0) + (if node1.Some? then 1 else 0) + (if node2.Some? then 1 else 0)
      + (if link01.Some? then 1 else 0) + (if link12.Some? then 1 else 0)
    }

    /**
     * `take_action`: a node may be claimed while it is empty and neither of
     * the other two nodes is held by the claimant's opponent; a link may be
     * coloured while it is uncoloured. Anything else is refused.
     */
    function TakeAction(action: Action): (next: Option<Network>)
      ensures action.Claim0? ==>
        (next.Some? <==> node0.None? && node1 != Some(action.player.Other()) && node2 != Some(action.player.Other()))
      ensures action.Claim1? ==>
        (next.Some? <==> node1.None? && node0 != Some(action.player.Other()) && node2 != Some(action.player.Other()))
      ensures action.Claim2? ==>
        (next.Some? <==> node2.None? && node0 != Some(action.player.Other()) && node1 != Some(action.player.Other()))
      ensures action.Color01? ==> (next.Some? <==> link01.None?)
      ensures action.Color12? ==> (next.Some? <==> link12.None?)
      ensures next.Some? && action.Claim0? ==> next.value == this.(node0 := Some(action.player))
      ensures next.Some? && action.Claim1? ==> next.value == this.(node1 := Some(action.player))
      ensures next.Some? && action.Claim2? ==> next.value == this.(node2 := Some(action.player))
      ensures next.Some? && action.Color01? ==> next.value == this.(link01 := Some(action.color))
      ensures next.Some? && action.Color12? ==> next.value == this.(link12 := Some(action.color))
    {
      match action
      case Claim0(p) =>
        HasClaimOfTwo(p, node1, node2);
        if node0.None? && !p.HasClaim([node1, node2]) then Some(this.(node0 := Some(p))) else None
      case Claim1(p) =>
        HasClaimOfTwo(p, node0, node2);
        if node1.None? && !p.HasClaim([node0, node2]) then Some(this.(node1 := Some(p))) else None
      case Claim2(p) =>
        HasClaimOfTwo(p, node0, node1);
        if node2.None? && !p.HasClaim([node0, node1]) then Some(this.(node2 := Some(p))) else None
      case Color01(c) =>
        if link01.None? then Some(this.(link01 := Some(c))) else None
      case Color12(c) =>
        if link12.None? then Some(this.(link12 := Some(c))) else None
    }

    /** `claim_node0`: claims node 0 for anyone while it is empty, ignoring the other nodes. */
    function ClaimNode0(player: Player): (next: Option<Network>)
      ensures next.None? <==> node0.Some?
      ensures next.Some? ==> next.value == this.(node0 := Some(player))
    {
      if node0.None? then Some(this.(node0 := Some(player))) else None
    }

    /** `claim_node1`: overwrites node 1 unconditionally. */
    function ClaimNode1(player: Player): (next: Network)
      ensures next.node1 == Some(player)
      ensures next.(node1 := node1) == this
    {
      this.(node1 := Some(player))
    }
  }

  /**
   * A successful transition fills exactly one field that was empty, so the
   * same action is refused on its result.
   */
  lemma TakeActionFillsOneField(net: Network, action: Action)
    requires net.TakeAction(action).Some?
    ensures net.TakeAction(action).value.Filled() == net.Filled() + 1
    ensures net.TakeAction(action).value.TakeAction(action).None?
  {
  }

  /** Every field a network reaches through `take_action` was set by the moves taken. */
  function Play(net: Network, actions: seq<Action>): Option<Network>
    decreases |actions|
  {
    if |actions| == 0 then Some(net)
    else match net.TakeAction(actions[0])
      case None => None
      case Some(next) => Play(next, actions[1..])
  }

  /** At most five moves succeed in a row: each one fills one of the five fields. */
  lemma {:induction false} PlayFillsOneFieldPerMove(net: Network, actions: seq<Action>)
    requires Play(net, actions).Some?
    ensures Play(net, actions).value.Filled() == net.Filled() + |actions|
    ensures net.Filled() + |actions| <= 5
    decreases |actions|
  {
    if |actions| > 0 {
      TakeActionFillsOneField(net, actions[0]);
      PlayFillsOneFieldPerMove(net.TakeAction(actions[0]).value, actions[1..]);
    }
  }
}

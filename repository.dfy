/**
 * The in-memory player repository: a mutable set of players that starts
 * with nine fixed entries, only ever shrinks, and announces each removal
 * on its `updated` stream.
 */
module Repository {
  import opened Players

  const InitialPlayers: set<Player> := {
    Player("Scout", 100),
    Player("Soldier", 120),
    Player("Pyro", 90),
    Player("Demoman", 85),
    Player("Heavy", 100),
    Player("Engineer", 140),
    Player("Medic", 180),
    Player("Sniper", 130),
    Player("Spy", 250)
  }

  /** The initial roster has nine players and no two of them share a name. */
  lemma InitialPlayersDistinctNames()
    ensures |InitialPlayers| == 9
    ensures forall p, q :: p in InitialPlayers && q in InitialPlayers && p.name == q.name ==> p == q
  {
  }

  /** Each contents snapshot is a subset of the one before it. */
  ghost predicate Shrinking(snapshots: seq<set<Player>>) {
    forall i :: 0 < i < |snapshots| ==> snapshots[i] <= snapshots[i - 1]
  }

  /** In a shrinking history no later snapshot holds anything the first did not, nor more players. */
  lemma {:induction false} SizeNeverIncreases(snapshots: seq<set<Player>>, i: nat)
    requires Shrinking(snapshots) && i < |snapshots|
    ensures snapshots[i] <= snapshots[0]
    ensures |snapshots[i]| <= |snapshots[0]|
  {
    if i > 0 {
      SizeNeverIncreases(snapshots, i - 1);
    }
    SubsetSize(snapshots[i], snapshots[0]);
  }

  lemma {:induction false} SubsetSize(a: set<Player>, b: set<Player>)
    requires a <= b
    ensures |a| <= |b|
  {
    if a != {} {
      var x :| x in a;
      SubsetSize(a - {x}, b - {x});
    }
  }

  class InMemoryPlayerRepository {
    /** The players currently stored (a HashSet in the source). */
    var currentPlayers: set<Player>
    /** The number of pulses sent on the `updated` subject so far. */
    var updates: nat
    /** The contents after construction and after each update, in order. */
    ghost var snapshots: seq<set<Player>>

    ghost predicate Valid()
      reads this
    {
      && |snapshots| == updates + 1
      && snapshots[0] == InitialPlayers
      && snapshots[updates] == currentPlayers
      && Shrinking(snapshots)
    }

    constructor ()
      ensures Valid()
      ensures currentPlayers == InitialPlayers && updates == 0
    {
      currentPlayers := InitialPlayers;
      updates := 0;
      snapshots := [InitialPlayers];
    }

    /**
     * What a subscriber to observePlayers that subscribed after `since`
     * updates has been sent: the contents at subscription time, then the
     * contents after each later update.
     */
    ghost function Observed(since: nat): (emissions: seq<set<Player>>)
      reads this
      requires Valid() && since <= updates
      ensures |emissions| == updates - since + 1
      ensures emissions[0] == snapshots[since]
      ensures emissions[|emissions| - 1] == currentPlayers
    {
      snapshots[since..]
    }

    /** Removes `player` by value, then sends exactly one update pulse. */
    method RemovePlayer(player: Player)
      requires Valid()
      modifies this
      ensures Valid()
      ensures currentPlayers == old(currentPlayers) - {player}
      ensures updates == old(updates) + 1
      ensures snapshots == old(snapshots) + [currentPlayers]
    {
      currentPlayers := currentPlayers - {player};
      updates := updates + 1;
      snapshots := snapshots + [currentPlayers];
    }

    /** No operation adds players: the store never holds more than it started with. */
    lemma NeverGrows()
      requires Valid()
      ensures currentPlayers <= InitialPlayers
      ensures |currentPlayers| <= |InitialPlayers|
    {
      SizeNeverIncreases(snapshots, updates);
    }
  }

  /** Removal matches on name and high score together. */
  method RemoveSpyByValue() returns (afterMismatch: set<Player>, afterMatch: set<Player>)
    ensures afterMismatch == InitialPlayers
    ensures afterMatch == InitialPlayers - {Player("Spy", 250)}
    ensures |afterMatch| == 8 && forall p :: p in afterMatch ==> p.name != "Spy"
  {
    var repository := new InMemoryPlayerRepository();
    repository.RemovePlayer(Player("Spy", 1));
    afterMismatch := repository.currentPlayers;
    repository.RemovePlayer(Player("Spy", 250));
    afterMatch := repository.currentPlayers;
    InitialPlayersDistinctNames();
  }
}

/**
 * The leaderboard presenter: it ranks the repository's players by
 * descending high score and hands them to the view as view models, and it
 * turns the view's delete requests back into players to remove.
 */
module Leaderboard {
  import opened Wrappers
  import opened Integers
  import opened Players
  import Repository
  import ActivityDelegate

  /** What the view displays for one player: the name and the score as text. */
  datatype PlayerViewModel = PlayerViewModel(name: string, highscore: string)

  /** toViewModel: keeps the name and renders the score in Integer.toString's form. */
  function ToViewModel(player: Player): (vm: PlayerViewModel)
    ensures vm.name == player.name
    ensures IsCanonical(vm.highscore)
    ensures vm.highscore[0] == '-' <==> player.highscore < 0
  {
    PlayerViewModel(player.name, ToString(player.highscore))
  }

  /** toDataModel: None stands for the NumberFormatException of Integer.parseInt. */
  function ToDataModel(vm: PlayerViewModel): (player: Option<Player>)
    ensures player.Some? <==> ParseInt(vm.highscore).Some?
    ensures player.Some? ==> player.value.name == vm.name
  {
    match ParseInt(vm.highscore)
    case Some(score) => Some(Player(vm.name, score))
    case None => None
  }

  /** Mapping a player to a view model and back gives the same player. */
  lemma ViewModelRoundTrip(player: Player)
    ensures ToDataModel(ToViewModel(player)) == Some(player)
  {
    ParseToString(player.highscore);
  }

  /** Mapping a well-formed view model to a player and back gives the same view model. */
  lemma DataModelRoundTrip(vm: PlayerViewModel)
    requires IsCanonical(vm.highscore) && ToDataModel(vm).Some?
    ensures ToViewModel(ToDataModel(vm).value) == vm
  {
    ToStringParse(vm.highscore);
  }

  /** Distinct players give distinct view models. */
  lemma ToViewModelInjective(p: Player, q: Player)
    ensures ToViewModel(p) == ToViewModel(q) <==> p == q
  {
    ViewModelRoundTrip(p);
    ViewModelRoundTrip(q);
  }

  /** Ordered by high score, highest first. */
  ghost predicate ByHighscoreDesc(players: seq<Player>) {
    forall i, j :: 0 <= i < j < |players| ==> players[i].highscore >= players[j].highscore
  }

  /**
   * Inserts `player` before the first player whose score is not higher, so
   * that among equal scores earlier players stay first.
   */
  function InsertByHighscore(player: Player, ranked: seq<Player>): (r: seq<Player>)
    ensures multiset(r) == multiset(ranked) + multiset{player}
    ensures r[0] == player || r[0] == ranked[0]
  {
    if ranked == [] || ranked[0].highscore <= player.highscore then
      [player] + ranked
    else
      assert ranked == [ranked[0]] + ranked[1..];
      [ranked[0]] + InsertByHighscore(player, ranked[1..])
  }

  /** Inserting into a list ordered by descending score keeps it ordered. */
  lemma {:induction false} InsertKeepsOrder(player: Player, ranked: seq<Player>)
    requires ByHighscoreDesc(ranked)
    ensures ByHighscoreDesc(InsertByHighscore(player, ranked))
  {
    if ranked != [] && ranked[0].highscore > player.highscore {
      var rest := InsertByHighscore(player, ranked[1..]);
      var r := [ranked[0]] + rest;
      assert r == InsertByHighscore(player, ranked);
      InsertKeepsOrder(player, ranked[1..]);
      forall i, j | 0 <= i < j < |r| ensures r[i].highscore >= r[j].highscore {
        assert r[j] == rest[j - 1];
        if i == 0 {
          assert rest[0].highscore <= ranked[0].highscore;
        } else {
          assert r[i] == rest[i - 1];
        }
      }
    }
  }

  /**
   * The stable sort of `sorted(...)` with the comparator
   * Integer.compare(player2.getHighscore(), player1.getHighscore()).
   */
  function SortByHighscore(players: seq<Player>): (r: seq<Player>)
    ensures ByHighscoreDesc(r)
    ensures multiset(r) == multiset(players)
  {
    if players == [] then []
    else
      var rest := SortByHighscore(players[1..]);
      assert players == [players[0]] + players[1..];
      InsertKeepsOrder(players[0], rest);
      InsertByHighscore(players[0], rest)
  }

  /** The players with the given score, in their order in `players`. */
  function WithHighscore(players: seq<Player>, score: int): (r: seq<Player>)
    ensures |r| <= |players|
    ensures forall i :: 0 <= i < |r| ==> r[i].highscore == score && r[i] in players
  {
    if players == [] then []
    else if players[0].highscore == score then [players[0]] + WithHighscore(players[1..], score)
    else WithHighscore(players[1..], score)
  }

  /** Insertion puts `player` ahead of every other player with the same score. */
  lemma {:induction false} InsertWithHighscore(player: Player, ranked: seq<Player>, score: int)
    ensures WithHighscore(InsertByHighscore(player, ranked), score)
            == (if player.highscore == score then [player] else []) + WithHighscore(ranked, score)
  {
    var r := InsertByHighscore(player, ranked);
    if ranked == [] || ranked[0].highscore <= player.highscore {
      assert r == [player] + ranked;
      assert r[1..] == ranked;
    } else {
      assert r == [ranked[0]] + InsertByHighscore(player, ranked[1..]);
      assert r[1..] == InsertByHighscore(player, ranked[1..]);
      InsertWithHighscore(player, ranked[1..], score);
    }
  }

  /**
   * The sort is stable: for every score, the players with that score keep
   * the order they had in the input.
   */
  lemma {:induction false} SortIsStable(players: seq<Player>, score: int)
    ensures WithHighscore(SortByHighscore(players), score) == WithHighscore(players, score)
  {
    if players != [] {
      SortIsStable(players[1..], score);
      InsertWithHighscore(players[0], SortByHighscore(players[1..]), score);
    }
  }

  /** The `map(this::toViewModel)` and `collectInto` steps: one view model per player, in order. */
  function ToViewModels(players: seq<Player>): (vms: seq<PlayerViewModel>)
    ensures |vms| == |players|
    ensures forall i :: 0 <= i < |players| ==> vms[i] == ToViewModel(players[i])
  {
    if players == [] then [] else [ToViewModel(players[0])] + ToViewModels(players[1..])
  }

  /** How often a player's view model occurs equals how often the player occurs. */
  lemma {:induction false} ToViewModelsCount(players: seq<Player>, p: Player)
    ensures multiset(ToViewModels(players))[ToViewModel(p)] == multiset(players)[p]
  {
    if players != [] {
      var head, tail := players[0], players[1..];
      ToViewModelsCount(tail, p);
      assert players == [head] + tail;
      assert ToViewModels(players) == [ToViewModel(head)] + ToViewModels(tail);
      assert multiset(players)[p] == multiset([head])[p] + multiset(tail)[p];
      ToViewModelInjective(head, p);
    }
  }

  /** Each player's row occurs once, every row shows a player of the set, highest score first. */
  ghost predicate ShowsEachOnce(rows: seq<PlayerViewModel>, players: set<Player>) {
    && |rows| == |players|
    && (forall p :: multiset(rows)[ToViewModel(p)] == if p in players then 1 else 0)
    && (forall i :: 0 <= i < |rows| ==> ToDataModel(rows[i]).Some? && ToDataModel(rows[i]).value in players)
    && (forall i, j :: 0 <= i < j < |rows| ==>
          ToDataModel(rows[i]).Some? && ToDataModel(rows[j]).Some? &&
          ToDataModel(rows[i]).value.highscore >= ToDataModel(rows[j]).value.highscore)
  }

  /** Each player of the set has exactly one row among the view models of a permutation of the set. */
  lemma RowsCountEachOnce(players: set<Player>, ranked: seq<Player>)
    requires multiset(ranked) == multiset(players)
    ensures forall p :: multiset(ToViewModels(ranked))[ToViewModel(p)] == if p in players then 1 else 0
  {
    forall p ensures multiset(ToViewModels(ranked))[ToViewModel(p)] == if p in players then 1 else 0 {
      ToViewModelsCount(ranked, p);
    }
  }

  /** Every view model of a permutation of the set maps back to the player it was made from. */
  lemma RowsMapBack(players: set<Player>, ranked: seq<Player>)
    requires multiset(ranked) == multiset(players)
    ensures forall i :: 0 <= i < |ranked| ==>
              ToDataModel(ToViewModels(ranked)[i]) == Some(ranked[i]) && ranked[i] in players
  {
    var rows := ToViewModels(ranked);
    forall i | 0 <= i < |ranked| ensures ToDataModel(rows[i]) == Some(ranked[i]) && ranked[i] in players {
      ViewModelRoundTrip(ranked[i]);
      assert ranked[i] in multiset(ranked);
    }
  }

  /** The view models of a ranked permutation of the set show each player once, in rank order. */
  lemma RankedRows(players: set<Player>, ranked: seq<Player>)
    requires multiset(ranked) == multiset(players) && ByHighscoreDesc(ranked)
    ensures ShowsEachOnce(ToViewModels(ranked), players)
  {
    assert |ranked| == |multiset(players)|;
    RowsCountEachOnce(players, ranked);
    RowsMapBack(players, ranked);
  }

  /** `iteration` is an iteration order of the set: it lists every player of it exactly once. */
  predicate IsIterationOf(iteration: seq<Player>, players: set<Player>) {
    multiset(iteration) == multiset(players)
  }

  /**
   * The list handed to setPlayers for one emission of the repository's set,
   * enumerated in the order `iteration`.
   */
  function PlayersToDisplay(players: set<Player>, iteration: seq<Player>): (rows: seq<PlayerViewModel>)
    requires IsIterationOf(iteration, players)
    ensures ShowsEachOnce(rows, players)
  {
    var ranked := SortByHighscore(iteration);
    RankedRows(players, ranked);
    ToViewModels(ranked)
  }

  /** One emission of observePlayers, with the iteration order of the emitted set. */
  datatype PlayersEmission = PlayersEmission(players: set<Player>, iteration: seq<Player>)

  /** displayPlayers: each emission of the repository yields exactly one setPlayers call, in order. */
  function DisplayPlayers(emissions: seq<PlayersEmission>): (calls: seq<seq<PlayerViewModel>>)
    requires forall i :: 0 <= i < |emissions| ==> IsIterationOf(emissions[i].iteration, emissions[i].players)
    ensures |calls| == |emissions|
    ensures forall i :: 0 <= i < |calls| ==> ShowsEachOnce(calls[i], emissions[i].players)
  {
    seq(|emissions|, i requires 0 <= i < |emissions| => PlayersToDisplay(emissions[i].players, emissions[i].iteration))
  }

  /**
   * deletePlayers: the players passed to removePlayer for a stream of delete
   * requests. A request parseInt rejects ends the stream with an error, so
   * no later request is acted on.
   */
  function DeletePlayers(requests: seq<PlayerViewModel>): (removals: seq<Player>)
    ensures |removals| <= |requests|
    ensures forall i :: 0 <= i < |removals| ==> ToDataModel(requests[i]) == Some(removals[i])
    ensures |removals| < |requests| ==> ToDataModel(requests[|removals|]).None?
  {
    if requests == [] then []
    else match ToDataModel(requests[0])
      case None => []
      case Some(player) =>
        var rest := DeletePlayers(requests[1..]);
        assert forall i :: 0 < i <= |rest| ==> requests[i] == requests[1..][i - 1];
        [player] + rest
  }

  /** Delete requests for displayed rows remove exactly the players those rows show. */
  lemma {:induction false} DeleteDisplayedPlayers(players: seq<Player>)
    ensures DeletePlayers(ToViewModels(players)) == players
  {
    if players != [] {
      ViewModelRoundTrip(players[0]);
      DeleteDisplayedPlayers(players[1..]);
    }
  }

  /** The presentation never offers a back action: its pending-action stream never emits. */
  const PendingBackActions: seq<Option<ActivityDelegate.BackAction>> := []

  /** One delete request handled against the repository: at most one removePlayer call. */
  method DeletePlayer(repository: Repository.InMemoryPlayerRepository, request: PlayerViewModel)
    returns (removed: Option<Player>)
    requires repository.Valid()
    modifies repository
    ensures repository.Valid()
    ensures removed == ToDataModel(request)
    ensures removed.Some? ==> repository.currentPlayers == old(repository.currentPlayers) - {removed.value}
    ensures removed.Some? ==> repository.updates == old(repository.updates) + 1
    ensures removed.Some? ==> repository.snapshots == old(repository.snapshots) + [repository.currentPlayers]
    ensures removed.None? ==> unchanged(repository)
  {
    removed := ToDataModel(request);
    if removed.Some? {
      repository.RemovePlayer(removed.value);
    }
  }

  /** Deleting the row shown for a stored player removes that player and only it. */
  method DeleteDisplayedSpy() returns (removed: Option<Player>, remaining: set<Player>)
    ensures removed == Some(Player("Spy", 250))
    ensures remaining == Repository.InitialPlayers - {Player("Spy", 250)}
    ensures |remaining| == 8
  {
    var repository := new Repository.InMemoryPlayerRepository();
    ViewModelRoundTrip(Player("Spy", 250));
    removed := DeletePlayer(repository, ToViewModel(Player("Spy", 250)));
    remaining := repository.currentPlayers;
    Repository.InitialPlayersDistinctNames();
  }
}

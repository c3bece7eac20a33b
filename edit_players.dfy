/**
 * The maintenance script scripts/edit-players.js: set a player's level,
 * delete a player, rename a player. Each command loads the dictionary,
 * changes one record in place and writes it back; a failure prints a
 * message and exits with status 1 before anything is written. The
 * failure is an outcome here, and the clock reading is a parameter.
 */
module EditPlayers {
  import Js
  import opened Players

  datatype Outcome = Done | NotFound | InvalidLevel

  /** `set <playerId> <level>` */
  method SetLevel(store: Store, playerId: string, level: string, now: int) returns (outcome: Outcome)
    modifies store
    ensures playerId !in old(store.players) ==> outcome == NotFound && store.players == old(store.players)
    ensures playerId in old(store.players) && (Js.ParseInt(level).None? || Js.ParseInt(level).value < 1) ==>
      outcome == InvalidLevel && store.players == old(store.players)
    ensures playerId in old(store.players) && Js.ParseInt(level).Some? && Js.ParseInt(level).value >= 1 ==>
      outcome == Done && store.players == old(store.players)[playerId :=
        old(store.players)[playerId].(currentLevel := Js.ParseInt(level).value, lastUpdated := now)]
  {
    var players := store.players;
    if playerId !in players {
      return NotFound;
    }
    var numLevel := Js.ParseInt(level);
    if numLevel.None? || numLevel.value < 1 {
      return InvalidLevel;
    }
    var playerData := players[playerId];
    playerData := playerData.(currentLevel := numLevel.value);
    playerData := playerData.(lastUpdated := now);
    store.players := players[playerId := playerData];
    outcome := Done;
  }

  /** `delete <playerId>` */
  method DeletePlayer(store: Store, playerId: string) returns (outcome: Outcome)
    modifies store
    ensures playerId !in old(store.players) ==> outcome == NotFound && store.players == old(store.players)
    ensures playerId in old(store.players) ==> outcome == Done && store.players == old(store.players) - {playerId}
  {
    var players := store.players;
    if playerId !in players {
      return NotFound;
    }
    players := players - {playerId};
    store.players := players;
    outcome := Done;
  }

  /** `rename <playerId> <newName>`: the trimmed name is stored even when
      it is empty. */
  method RenamePlayer(store: Store, playerId: string, newName: string, now: int) returns (outcome: Outcome)
    modifies store
    ensures playerId !in old(store.players) ==> outcome == NotFound && store.players == old(store.players)
    ensures playerId in old(store.players) ==> outcome == Done && store.players == old(store.players)[playerId :=
      old(store.players)[playerId].(name := Js.Trim(newName), lastUpdated := now)]
  {
    var players := store.players;
    if playerId !in players {
      return NotFound;
    }
    var playerData := players[playerId];
    playerData := playerData.(name := Js.Trim(newName));
    playerData := playerData.(lastUpdated := now);
    store.players := players[playerId := playerData];
    outcome := Done;
  }
}

/**
 * The visitor's own record (`/api/player`, app/api/player/route.ts): read
 * it with defaults, register a name, and record a level. The visitor is
 * known by the `player-id` cookie; a fresh id (built from the clock and
 * a random number in the source) is a parameter, and so is the write
 * timestamp. Bodies are dynamic JSON values.
 */
module PlayerRoute {
  import opened Wrappers
  import Js
  import opened Players

  /** The name PATCH gives a record it has to create. */
  const DefaultName: string := "Jugador"

  /** The fixed start of a generated id. */
  const IdPrefix: string := "player-"

  /** `getOrCreatePlayerId`: an existing non-empty cookie is the id;
      otherwise `player-` followed by `generated`, which stands for the
      clock reading and random digits the source appends. The id is never
      empty, so sent back as the cookie it is kept as it is. */
  function PlayerId(cookie: Option<string>, generated: string): (r: string)
    ensures r != ""
    ensures cookie.Some? && cookie.value != "" ==> r == cookie.value
    ensures cookie.None? || cookie.value == "" ==> r == IdPrefix + generated
  {
    if cookie.Some? && cookie.value != "" then cookie.value else IdPrefix + generated
  }

  /** A later request that carries the id as its cookie is given the
      same id, whatever fresh id it would have generated. */
  lemma PlayerIdSticky(cookie: Option<string>, generated: string, later: string)
    ensures PlayerId(Some(PlayerId(cookie, generated)), later) == PlayerId(cookie, generated)
  {
  }

  datatype PlayerView = PlayerView(playerId: string, name: Option<string>, currentLevel: int)

  /** GET: the record's name and level, defaulting to no name and level 1. */
  function Get(players: map<string, Player>, playerId: string): (r: PlayerView)
    ensures r.playerId == playerId
    ensures r.name.Some? <==> playerId in players && players[playerId].name != ""
    ensures r.name.Some? ==> r.name.value == players[playerId].name
    ensures r.currentLevel != 0
    ensures playerId !in players ==> r.currentLevel == 1
    ensures playerId in players && players[playerId].currentLevel != 0 ==>
      r.currentLevel == players[playerId].currentLevel
    ensures playerId in players && players[playerId].currentLevel == 0 ==> r.currentLevel == 1
  {
    if playerId in players then
      var data := players[playerId];
      PlayerView(playerId, if data.name != "" then Some(data.name) else None, LevelOr1(data.currentLevel))
    else PlayerView(playerId, None, 1)
  }

  /** A name POST accepts: a string that is not all whitespace. */
  predicate ValidName(name: Js.Value) {
    name.Str? && Js.Trim(name.s) != ""
  }

  /** The level POST stores: the body's number, else the record's own
      non-zero level, else 1. */
  function PostLevel(players: map<string, Player>, playerId: string, currentLevel: Js.Value): (r: int)
    ensures currentLevel.Number? ==> r == currentLevel.n
    ensures !currentLevel.Number? ==> r == Get(players, playerId).currentLevel
    ensures !currentLevel.Number? && playerId in players ==> r == LevelOr1(players[playerId].currentLevel)
    ensures !currentLevel.Number? && playerId !in players ==> r == 1
  {
    if currentLevel.Number? then currentLevel.n
    else if playerId in players then LevelOr1(players[playerId].currentLevel)
    else 1
  }

  /** The record PATCH writes: a new one named "Jugador" for an unknown
      id, else the old one with only the level and time replaced. The
      level is stored as given: no clamping, no check that it grows. */
  function Patched(players: map<string, Player>, playerId: string, currentLevel: int, now: int): (r: Player)
    ensures r.currentLevel == currentLevel && r.lastUpdated == now
    ensures playerId !in players ==> r.name == DefaultName
    ensures playerId in players ==> r.name == players[playerId].name
    ensures currentLevel != 0 ==> Get(players[playerId := r], playerId).currentLevel == currentLevel
    ensures Get(players[playerId := r], playerId).name ==
      if playerId in players then Get(players, playerId).name else Some(DefaultName)
  {
    if playerId !in players then Player(DefaultName, currentLevel, now)
    else players[playerId].(currentLevel := currentLevel, lastUpdated := now)
  }

  /** POST: register or rename the visitor. */
  method Post(store: Store, cookie: Option<string>, generated: string, name: Js.Value, currentLevel: Js.Value, now: int)
    returns (status: int, playerId: string)
    modifies store
    ensures playerId == PlayerId(cookie, generated)
    ensures !ValidName(name) ==> status == 400 && store.players == old(store.players)
    ensures ValidName(name) ==> status == 200 && store.players == old(store.players)[playerId :=
      Player(Js.Trim(name.s), PostLevel(old(store.players), playerId, currentLevel), now)]
  {
    playerId := PlayerId(cookie, generated);
    if !name.Str? || Js.Trim(name.s) == "" {
      return 400, playerId;
    }
    var players := store.players;
    players := players[playerId := Player(Js.Trim(name.s), PostLevel(players, playerId, currentLevel), now)];
    store.players := players;
    status := 200;
  }

  /** PATCH: record the visitor's level. */
  method Patch(store: Store, cookie: Option<string>, generated: string, currentLevel: Js.Value, now: int)
    returns (status: int)
    modifies store
    ensures !currentLevel.Number? ==> status == 400 && store.players == old(store.players)
    ensures currentLevel.Number? ==> status == 200 && store.players == old(store.players)[PlayerId(cookie, generated) :=
      Patched(old(store.players), PlayerId(cookie, generated), currentLevel.n, now)]
  {
    var playerId := PlayerId(cookie, generated);
    if !currentLevel.Number? {
      return 400;
    }
    var players := store.players;
    players := players[playerId := Patched(players, playerId, currentLevel.n, now)];
    store.players := players;
    status := 200;
  }

  /** After a successful POST, GET shows the trimmed name, and every
      other record is as it was. */
  lemma PostThenGet(players: map<string, Player>, playerId: string, name: string, currentLevel: Js.Value, now: int)
    requires Js.Trim(name) != ""
    ensures var after := players[playerId := Player(Js.Trim(name), PostLevel(players, playerId, currentLevel), now)];
      Get(after, playerId).name == Some(Js.Trim(name))
      && (currentLevel.Number? && currentLevel.n != 0 ==> Get(after, playerId).currentLevel == currentLevel.n)
      && forall other | other != playerId :: Get(after, other) == Get(players, other)
  {
  }

  /** A POST without a level keeps the level GET showed before. */
  lemma PostKeepsShownLevel(players: map<string, Player>, playerId: string, name: string, now: int)
    requires Js.Trim(name) != ""
    ensures var after := players[playerId := Player(Js.Trim(name), PostLevel(players, playerId, Js.Undefined), now)];
      Get(after, playerId).currentLevel == Get(players, playerId).currentLevel
  {
  }

  /** Repeating a PATCH changes only the timestamp. */
  lemma PatchIdempotent(players: map<string, Player>, playerId: string, level: int, t1: int, t2: int)
    ensures var once := players[playerId := Patched(players, playerId, level, t1)];
      once[playerId := Patched(once, playerId, level, t2)] == players[playerId := Patched(players, playerId, level, t2)]
  {
  }

  /** PATCH can lower the level: nothing makes it monotone. */
  lemma PatchCanLower(players: map<string, Player>, playerId: string, now: int)
    requires playerId in players && players[playerId].currentLevel == 5
    ensures Patched(players, playerId, 2, now).currentLevel < players[playerId].currentLevel
  {
  }
}

/**
 * The administrators' endpoint (`/api/admin/players`,
 * app/api/admin/players/route.ts): list, create or merge, and delete
 * player records, each behind a key check on the `Authorization` header.
 * The header and the `ADMIN_KEY` environment variable are parameters.
 */
module AdminRoute {
  import opened Wrappers
  import Js
  import opened Players

  const FallbackKey: string := "change-me-in-production"
  const BearerPrefix: string := "Bearer "
  const DefaultName: string := "Jugador"

  /** `process.env.ADMIN_KEY || 'change-me-in-production'` */
  function AdminKey(env: Option<string>): (r: string)
    ensures r != ""
    ensures env.Some? && env.value != "" ==> r == env.value
    ensures env.None? || env.value == "" ==> r == FallbackKey
  {
    if env.Some? && env.value != "" then env.value else FallbackKey
  }

  /** `isAuthorized`: a header is required, and once its first "Bearer "
      is cut out it must be exactly the key. So the only headers that
      pass are the key itself and the key with "Bearer " put in at one
      place. */
  function IsAuthorized(header: Option<string>, env: Option<string>): (r: bool)
    ensures header.None? || header.value == "" ==> !r
    ensures header.Some? && header.value != "" ==>
      (r <==> Js.ReplaceFirst(header.value, BearerPrefix, "") == AdminKey(env))
    ensures r ==>
      header.Some? &&
      (header.value == AdminKey(env) ||
       exists k | 0 <= k <= |AdminKey(env)| ::
         header.value == AdminKey(env)[..k] + BearerPrefix + AdminKey(env)[k..])
  {
    if header.None? || header.value == "" then false
    else
      var token := Js.ReplaceFirst(header.value, BearerPrefix, "");
      if token == AdminKey(env) then
        TokenShape(header.value, token);
        true
      else false
  }

  /** A header whose first "Bearer " is cut out to leave `token` is
      `token` itself or `token` with "Bearer " put in at one place. */
  lemma TokenShape(h: string, token: string)
    requires token == Js.ReplaceFirst(h, BearerPrefix, "")
    ensures h == token ||
      exists k | 0 <= k <= |token| :: h == token[..k] + BearerPrefix + token[k..]
  {
    if h != token {
      var k :| Js.OccursAt(h, BearerPrefix, k) && token == h[..k] + "" + h[k + |BearerPrefix|..];
      assert token[..k] == h[..k] && token[k..] == h[k + |BearerPrefix|..];
      assert h == h[..k] + h[k..k + |BearerPrefix|] + h[k + |BearerPrefix|..];
    }
  }

  /** "Bearer " with nothing after it never authorises: the key is never
      empty. */
  lemma EmptyBearerRefused(env: Option<string>)
    ensures !IsAuthorized(Some(BearerPrefix), env)
  {
    BearerTokenAuthorizes("", env);
    assert BearerPrefix + "" == BearerPrefix;
  }

  /** Without ADMIN_KEY (unset or empty), the fallback key authorises. */
  lemma FallbackKeyAuthorizes(env: Option<string>)
    requires env.None? || env.value == ""
    ensures IsAuthorized(Some(BearerPrefix + FallbackKey), env)
  {
    BearerTokenAuthorizes(FallbackKey, env);
  }

  /** The documented form `Bearer <key>` is accepted exactly when the
      part after the prefix is the key. */
  lemma BearerTokenAuthorizes(key: string, env: Option<string>)
    ensures IsAuthorized(Some(BearerPrefix + key), env) <==> key == AdminKey(env)
  {
    var h := BearerPrefix + key;
    assert Js.OccursAt(h, BearerPrefix, 0) by {
      assert h[..|BearerPrefix|] == BearerPrefix;
    }
    var i := Js.IndexOf(h, BearerPrefix);
    assert i == Some(0);
    assert h[|BearerPrefix|..] == key;
    assert Js.ReplaceFirst(h, BearerPrefix, "") == key;
  }

  /** A header that never mentions "Bearer " is compared as it is, so the
      bare key is accepted too. */
  lemma BareKeyAuthorizes(header: string, env: Option<string>)
    requires header != ""
    requires forall k :: !Js.OccursAt(header, BearerPrefix, k)
    ensures IsAuthorized(Some(header), env) <==> header == AdminKey(env)
  {
  }

  /** GET: the whole dictionary, or 401. */
  function GetAll(players: map<string, Player>, header: Option<string>, env: Option<string>)
    : (r: (int, Option<map<string, Player>>))
    ensures !IsAuthorized(header, env) ==> r == (401, None)
    ensures IsAuthorized(header, env) ==> r == (200, Some(players))
    ensures header.None? || header.value == "" || header.value == BearerPrefix ==> r == (401, None)
  {
    EmptyBearerRefused(env);
    if !IsAuthorized(header, env) then (401, None) else (200, Some(players))
  }

  /** The body checks of POST, in the order the handler makes them; true
      means the request is refused with 400. */
  predicate BadPostBody(playerId: Js.Value, name: Js.Value, currentLevel: Js.Value) {
    || !(playerId.Str? && playerId.s != "")
    || (Js.Truthy(name) && !name.Str?)
    || !(currentLevel.Undefined? || currentLevel.Number?)
  }

  /** The record POST writes, merged from the body and the old record:
      `name || existing.name || 'Jugador'`, and the given level or else
      `existing.currentLevel || 1`. The name is not trimmed. */
  function Merged(existing: Option<Player>, name: Js.Value, currentLevel: Js.Value, now: int): (r: Player)
    requires Js.Truthy(name) ==> name.Str?
    requires currentLevel.Undefined? || currentLevel.Number?
    ensures r.lastUpdated == now && r.name != ""
    ensures Js.Truthy(name) ==> r.name == name.s
    ensures !Js.Truthy(name) && existing.Some? && existing.value.name != "" ==> r.name == existing.value.name
    ensures !Js.Truthy(name) && (existing.None? || existing.value.name == "") ==> r.name == DefaultName
    ensures currentLevel.Number? ==> r.currentLevel == currentLevel.n
    ensures currentLevel.Undefined? && existing.Some? ==> r.currentLevel == LevelOr1(existing.value.currentLevel)
    ensures currentLevel.Undefined? && existing.None? ==> r.currentLevel == 1
  {
    var newName :=
      if Js.Truthy(name) then name.s
      else if existing.Some? && existing.value.name != "" then existing.value.name
      else DefaultName;
    var newLevel :=
      if currentLevel.Number? then currentLevel.n
      else if existing.Some? then LevelOr1(existing.value.currentLevel)
      else 1;
    Player(newName, newLevel, now)
  }

  /** `players[playerId]`, absent when the key is not stored. */
  function Lookup(players: map<string, Player>, playerId: string): Option<Player> {
    if playerId in players then Some(players[playerId]) else None
  }

  /** POST: create or merge one record. */
  method Post(store: Store, header: Option<string>, env: Option<string>,
              playerId: Js.Value, name: Js.Value, currentLevel: Js.Value, now: int)
    returns (status: int)
    modifies store
    ensures !IsAuthorized(header, env) ==> status == 401 && store.players == old(store.players)
    ensures IsAuthorized(header, env) && BadPostBody(playerId, name, currentLevel) ==>
      status == 400 && store.players == old(store.players)
    ensures IsAuthorized(header, env) && !BadPostBody(playerId, name, currentLevel) ==>
      status == 200 && store.players == old(store.players)[playerId.s :=
        Merged(Lookup(old(store.players), playerId.s), name, currentLevel, now)]
  {
    if !IsAuthorized(header, env) {
      return 401;
    }
    if !playerId.Str? || playerId.s == "" {
      return 400;
    }
    if Js.Truthy(name) && !name.Str? {
      return 400;
    }
    if !currentLevel.Undefined? && !currentLevel.Number? {
      return 400;
    }
    var players := store.players;
    var existing := Lookup(players, playerId.s);
    players := players[playerId.s := Merged(existing, name, currentLevel, now)];
    store.players := players;
    status := 200;
  }

  /** DELETE: remove one record. */
  method Delete(store: Store, header: Option<string>, env: Option<string>, playerId: Option<string>)
    returns (status: int)
    modifies store
    ensures !IsAuthorized(header, env) ==> status == 401 && store.players == old(store.players)
    ensures IsAuthorized(header, env) && (playerId.None? || playerId.value == "") ==>
      status == 400 && store.players == old(store.players)
    ensures IsAuthorized(header, env) && playerId.Some? && playerId.value != "" && playerId.value !in old(store.players) ==>
      status == 404 && store.players == old(store.players)
    ensures IsAuthorized(header, env) && playerId.Some? && playerId.value != "" && playerId.value in old(store.players) ==>
      status == 200 && store.players == old(store.players) - {playerId.value}
  {
    if !IsAuthorized(header, env) {
      return 401;
    }
    if playerId.None? || playerId.value == "" {
      return 400;
    }
    var players := store.players;
    if playerId.value !in players {
      return 404;
    }
    players := players - {playerId.value};
    store.players := players;
    status := 200;
  }

  /** Sending the same POST body twice leaves the record as one send does,
      up to the timestamp. */
  lemma MergeIdempotent(existing: Option<Player>, name: Js.Value, currentLevel: Js.Value, t1: int, t2: int)
    requires Js.Truthy(name) ==> name.Str?
    requires currentLevel.Undefined? || currentLevel.Number?
    ensures Merged(Some(Merged(existing, name, currentLevel, t1)), name, currentLevel, t2)
      == Merged(existing, name, currentLevel, t2)
  {
  }

  /** A POST that names only the player leaves an existing record's name
      and non-zero level alone. */
  lemma MergeKeepsRecord(p: Player, now: int)
    requires p.name != "" && p.currentLevel != 0
    ensures Merged(Some(p), Js.Undefined, Js.Undefined, now) == p.(lastUpdated := now)
  {
  }

  /** Deleting removes exactly one record. */
  lemma DeleteRemovesOne(players: map<string, Player>, playerId: string)
    requires playerId in players
    ensures |players - {playerId}| == |players| - 1
    ensures forall k | k in players && k != playerId :: k in players - {playerId} && (players - {playerId})[k] == players[k]
  {
    assert players.Keys == (players - {playerId}).Keys + {playerId};
  }
}

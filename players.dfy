/**
 * The player records shared by the player, admin and leaderboard routes
 * and the maintenance script: a dictionary from player id to record,
 * which the source keeps in `data/players.json` and every
 * handler loads, changes in place and writes back. Here it is one field
 * of one object; `lastUpdated`, an ISO-8601 timestamp in the source, is
 * an integer clock reading that orders the same way.
 */
module Players {

  datatype Player = Player(name: string, currentLevel: int, lastUpdated: int)

  /** The dictionary that the handlers load, update and write back. */
  class Store {
    var players: map<string, Player>

    constructor (players: map<string, Player>)
      ensures this.players == players
    {
      this.players := players;
    }
  }

  /** `value || 1` for a stored level: JavaScript treats 0 as missing. */
  function LevelOr1(level: int): (r: int)
    ensures r != 0
    ensures level != 0 ==> r == level
    ensures level == 0 ==> r == 1
  {
    if level != 0 then level else 1
  }
}

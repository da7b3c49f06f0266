// Package `ark` (arkrcon.go): the earlier form of the client, in which
// every command spells out its own check on the reply of `Query` instead of
// calling a shared helper. Each method is proved against the same verdict
// functions as the `arkrcon` client, so the two files agree command by
// command. This form has no `DestroyWildDinos` or `DestroyAllEnemies`.
module Ark {
  import opened GoStrings
  import opened Rcon
  import opened Replies
  import Commands
  import PlayerList
  import ChatLog

  /** `ARKRcon`: a connected console and the address it was dialled at. */
  class ArkRcon {
    const rc: RemoteConsole
    const address: string

    /** The struct literal `&ARKRcon{rc, address}` of `NewARKRconConnection`. */
    constructor (rc: RemoteConsole, address: string)
      ensures this.rc == rc && this.address == address
    {
      this.rc := rc;
      this.address := address;
    }

    /** `Query`: write the command, read the reply, turn the sentinel into
        `EmptyResponse`. */
    method Query(cmd: string) returns (resp: string, err: Err)
      modifies rc
      ensures rc.OneExchange(cmd)
      ensures (resp, err) == QueryResult(old(rc.script))
    {
      var reqErr := rc.Write(cmd);
      if reqErr != Nil {
        return "", reqErr;
      }
      var r, respErr := rc.Read();
      if respErr != Nil {
        return "", respErr;
      }
      if Contains(r, NoResponse) {
        return "", EmptyResponse;
      }
      return r, Nil;
    }

    /** `ListPlayers`: the players of the reply, or the error of `Query`
        (and no list). */
    method ListPlayers() returns (list: seq<PlayerList.Player>, err: Err)
      modifies rc
      ensures rc.OneExchange("listplayers")
      ensures err == QueryResult(old(rc.script)).1
      ensures list == if err == Nil then PlayerList.Players(old(rc.script).text) else []
    {
      var resp;
      resp, err := Query("listplayers");
      if err != Nil {
        return [], err;
      }
      var all := PlayerList.Submatches(resp);
      list := PlayerList.CollectPlayers(all);
    }

    /** `GetChat`: the chat message of the reply, or the error of `Query`
        (and no list). */
    method GetChat() returns (list: seq<ChatLog.ChatMsg>, err: Err)
      modifies rc
      ensures rc.OneExchange("getchat")
      ensures err == QueryResult(old(rc.script)).1
      ensures list == if err == Nil then ChatLog.Messages(old(rc.script).text) else []
    {
      var resp;
      resp, err := Query("getchat");
      if err != Nil {
        return [], err;
      }
      var all := ChatLog.Submatches(resp);
      list := ChatLog.CollectChat(all);
    }

    method SaveWorld() returns (err: Err)
      modifies rc
      ensures rc.OneExchange("saveworld")
      ensures err == SubstringVerdict(old(rc.script), "World Saved")
    {
      var resp, queryErr := Query("saveworld");
      if queryErr != Nil {
        return queryErr;
      }
      if !Contains(resp, "World Saved") {
        return FailResponse;
      }
      return Nil;
    }

    method DoExit() returns (err: Err)
      modifies rc
      ensures rc.OneExchange("doexit")
      ensures err == SubstringVerdict(old(rc.script), "Exiting")
    {
      var resp, queryErr := Query("doexit");
      if queryErr != Nil {
        return queryErr;
      }
      if !Contains(resp, "Exiting") {
        return FailResponse;
      }
      return Nil;
    }

    method SendChatToPlayer(player: string, message: string) returns (err: Err)
      modifies rc
      ensures rc.OneExchange(Commands.ChatToPlayerCommand(player, message))
      ensures err == VoidVerdict(old(rc.script))
    {
      var _, queryErr := Query(Commands.ChatToPlayerCommand(player, message));
      if queryErr == EmptyResponse {
        return Nil;
      } else {
        return queryErr;
      }
    }

    method SendChatToID(steam64: string, message: string) returns (err: Err)
      modifies rc
      ensures rc.OneExchange(Commands.ChatToIdCommand(steam64, message))
      ensures err == VoidVerdict(old(rc.script))
    {
      var _, queryErr := Query(Commands.ChatToIdCommand(steam64, message));
      if queryErr == EmptyResponse {
        return Nil;
      } else {
        return queryErr;
      }
    }

    method SetTimeOfDay(time: string) returns (err: Err)
      modifies rc
      ensures rc.OneExchange("settimeofday " + time)
      ensures err == VoidVerdict(old(rc.script))
    {
      var _, queryErr := Query("settimeofday " + time);
      if queryErr == EmptyResponse {
        return Nil;
      } else {
        return queryErr;
      }
    }

    method WhitelistPlayer(steam64: string) returns (err: Err)
      modifies rc
      ensures rc.OneExchange("allowplayertojoinnocheck " + steam64)
      ensures err == SubstringVerdict(old(rc.script), steam64 + " Allow")
    {
      var resp, queryErr := Query("allowplayertojoinnocheck " + steam64);
      if queryErr != Nil {
        return queryErr;
      }
      if !Contains(resp, steam64 + " Allow") {
        return FailResponse;
      }
      return Nil;
    }

    method RemoveWhitelist(steam64: string) returns (err: Err)
      modifies rc
      ensures rc.OneExchange("disallowplayertojoinnocheck " + steam64)
      ensures err == SubstringVerdict(old(rc.script), steam64 + " Disallowed")
    {
      var resp, queryErr := Query("disallowplayertojoinnocheck " + steam64);
      if queryErr != Nil {
        return queryErr;
      }
      if !Contains(resp, steam64 + " Disallowed") {
        return FailResponse;
      }
      return Nil;
    }

    method SetMessageOfTheDay(motd: string) returns (err: Err)
      modifies rc
      ensures rc.OneExchange("setmessageoftheday " + motd)
      ensures err == SubstringVerdict(old(rc.script), "Message of set to")
    {
      var resp, queryErr := Query("setmessageoftheday " + motd);
      if queryErr != Nil {
        return queryErr;
      }
      if !Contains(resp, "Message of set to") {
        return FailResponse;
      }
      return Nil;
    }

    method Broadcast(message: string) returns (err: Err)
      modifies rc
      ensures rc.OneExchange("broadcast " + message)
      ensures err == VoidVerdict(old(rc.script))
    {
      var _, queryErr := Query("broadcast " + message);
      if queryErr == EmptyResponse {
        return Nil;
      } else {
        return queryErr;
      }
    }

    method KickPlayer(steam64: string) returns (err: Err)
      modifies rc
      ensures rc.OneExchange("kickplayer " + steam64)
      ensures err == SubstringVerdict(old(rc.script), steam64 + " Kicked")
    {
      var resp, queryErr := Query("kickplayer " + steam64);
      if queryErr != Nil {
        return queryErr;
      }
      if !Contains(resp, steam64 + " Kicked") {
        return FailResponse;
      }
      return Nil;
    }

    method BanPlayer(steam64: string) returns (err: Err)
      modifies rc
      ensures rc.OneExchange("banplayer " + steam64)
      ensures err == SubstringVerdict(old(rc.script), steam64 + " Banned")
    {
      var resp, queryErr := Query("banplayer " + steam64);
      if queryErr != Nil {
        return queryErr;
      }
      if !Contains(resp, steam64 + " Banned") {
        return FailResponse;
      }
      return Nil;
    }

    method UnbanPlayer(steam64: string) returns (err: Err)
      modifies rc
      ensures rc.OneExchange("unbanplayer " + steam64)
      ensures err == SubstringVerdict(old(rc.script), steam64 + " Unbanned")
    {
      var resp, queryErr := Query("unbanplayer " + steam64);
      if queryErr != Nil {
        return queryErr;
      }
      if !Contains(resp, steam64 + " Unbanned") {
        return FailResponse;
      }
      return Nil;
    }

    method Slomo(multiplier: int) returns (err: Err)
      modifies rc
      ensures rc.OneExchange(Commands.SlomoCommand(multiplier))
      ensures err == VoidVerdict(old(rc.script))
    {
      var _, queryErr := Query(Commands.SlomoCommand(multiplier));
      if queryErr == EmptyResponse {
        return Nil;
      } else {
        return queryErr;
      }
    }
  }
}

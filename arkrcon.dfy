// Package `arkrcon` (arkrcon/arkrcon.go): the ARK client whose commands
// share two helpers, `emptyResponse` for commands that answer with the "no
// response" sentinel and `simpleResponse` for commands whose reply must
// contain a confirmation text.
//
// Every method writes exactly one command to the console and reads at most
// one reply (`rc.OneExchange`), and its result is the verdict of `Replies`
// on what the console did with that exchange.
module ArkRcon {
  import opened GoStrings
  import opened Rcon
  import opened Replies
  import Commands
  import PlayerList
  import ChatLog

  /** `ARKRcon`: a connected console and the address it was dialled at. */
  class ArkRcon {
    const rc: RemoteConsole
    const address: string

    /** The struct literal `&ARKRcon{rc, address}` of `NewARKRconConnection`. */
    constructor (rc: RemoteConsole, address: string)
      ensures this.rc == rc && this.address == address
    {
      this.rc := rc;
      this.address := address;
    }

    /** `Query`: write the command, read the reply, turn the sentinel into
        `EmptyResponse`. */
    method Query(cmd: string) returns (resp: string, err: Err)
      modifies rc
      ensures rc.OneExchange(cmd)
      ensures (resp, err) == QueryResult(old(rc.script))
    {
      var reqErr := rc.Write(cmd);
      if reqErr != Nil {
        return "", reqErr;
      }
      var r, respErr := rc.Read();
      if respErr != Nil {
        return "", respErr;
      }
      if Contains(r, NoResponse) {
        return "", EmptyResponse;
      }
      return r, Nil;
    }

    /** `emptyResponse`: success is the sentinel reply (or any reply). */
    method EmptyResponseCommand(cmd: string) returns (err: Err)
      modifies rc
      ensures rc.OneExchange(cmd)
      ensures err == VoidVerdict(old(rc.script))
    {
      var _, queryErr := Query(cmd);
      if queryErr == EmptyResponse {
        return Nil;
      } else {
        return queryErr;
      }
    }

    /** `simpleResponse`: success is a reply that contains `exp`. */
    method SimpleResponseCommand(cmd: string, exp: string) returns (err: Err)
      modifies rc
      ensures rc.OneExchange(cmd)
      ensures err == SubstringVerdict(old(rc.script), exp)
    {
      var resp, queryErr := Query(cmd);
      if queryErr != Nil {
        return queryErr;
      }
      if !Contains(resp, exp) {
        return FailResponse;
      }
      return Nil;
    }

    /** `ListPlayers`: the players of the reply, or the error of `Query`
        (and no list). */
    method ListPlayers() returns (list: seq<PlayerList.Player>, err: Err)
      modifies rc
      ensures rc.OneExchange("listplayers")
      ensures err == QueryResult(old(rc.script)).1
      ensures list == if err == Nil then PlayerList.Players(old(rc.script).text) else []
    {
      var resp;
      resp, err := Query("listplayers");
      if err != Nil {
        return [], err;
      }
      var all := PlayerList.Submatches(resp);
      list := PlayerList.CollectPlayers(all);
    }

    /** `GetChat`: the chat message of the reply, or the error of `Query`
        (and no list). */
    method GetChat() returns (list: seq<ChatLog.ChatMsg>, err: Err)
      modifies rc
      ensures rc.OneExchange("getchat")
      ensures err == QueryResult(old(rc.script)).1
      ensures list == if err == Nil then ChatLog.Messages(old(rc.script).text) else []
    {
      var resp;
      resp, err := Query("getchat");
      if err != Nil {
        return [], err;
      }
      var all := ChatLog.Submatches(resp);
      list := ChatLog.CollectChat(all);
    }

    method SaveWorld() returns (err: Err)
      modifies rc
      ensures rc.OneExchange("saveworld")
      ensures err == SubstringVerdict(old(rc.script), "World Saved")
    {
      err := SimpleResponseCommand("saveworld", "World Saved");
    }

    method DoExit() returns (err: Err)
      modifies rc
      ensures rc.OneExchange("doexit")
      ensures err == SubstringVerdict(old(rc.script), "Exiting")
    {
      err := SimpleResponseCommand("doexit", "Exiting");
    }

    method SendChatToPlayer(player: string, message: string) returns (err: Err)
      modifies rc
      ensures rc.OneExchange(Commands.ChatToPlayerCommand(player, message))
      ensures err == VoidVerdict(old(rc.script))
    {
      err := EmptyResponseCommand(Commands.ChatToPlayerCommand(player, message));
    }

    method SendChatToID(steam64: string, message: string) returns (err: Err)
      modifies rc
      ensures rc.OneExchange(Commands.ChatToIdCommand(steam64, message))
      ensures err == VoidVerdict(old(rc.script))
    {
      err := EmptyResponseCommand(Commands.ChatToIdCommand(steam64, message));
    }

    /** The time is passed on unchecked; `hh:mm` is only what the server
        expects. */
    method SetTimeOfDay(time: string) returns (err: Err)
      modifies rc
      ensures rc.OneExchange("settimeofday " + time)
      ensures err == VoidVerdict(old(rc.script))
    {
      err := EmptyResponseCommand("settimeofday " + time);
    }

    method WhitelistPlayer(steam64: string) returns (err: Err)
      modifies rc
      ensures rc.OneExchange("allowplayertojoinnocheck " + steam64)
      ensures err == SubstringVerdict(old(rc.script), steam64 + " Allow")
    {
      err := SimpleResponseCommand("allowplayertojoinnocheck " + steam64, steam64 + " Allow");
    }

    method RemoveWhitelist(steam64: string) returns (err: Err)
      modifies rc
      ensures rc.OneExchange("disallowplayertojoinnocheck " + steam64)
      ensures err == SubstringVerdict(old(rc.script), steam64 + " Disallowed")
    {
      err := SimpleResponseCommand("disallowplayertojoinnocheck " + steam64, steam64 + " Disallowed");
    }

    /** The confirmation is the fixed text `Message of set to`, whatever
        message the server echoes after it. */
    method SetMessageOfTheDay(motd: string) returns (err: Err)
      modifies rc
      ensures rc.OneExchange("setmessageoftheday " + motd)
      ensures err == SubstringVerdict(old(rc.script), "Message of set to")
    {
      err := SimpleResponseCommand("setmessageoftheday " + motd, "Message of set to");
    }

    method Broadcast(message: string) returns (err: Err)
      modifies rc
      ensures rc.OneExchange("broadcast " + message)
      ensures err == VoidVerdict(old(rc.script))
    {
      err := EmptyResponseCommand("broadcast " + message);
    }

    method KickPlayer(steam64: string) returns (err: Err)
      modifies rc
      ensures rc.OneExchange("kickplayer " + steam64)
      ensures err == SubstringVerdict(old(rc.script), steam64 + " Kicked")
    {
      err := SimpleResponseCommand("kickplayer " + steam64, steam64 + " Kicked");
    }

    method BanPlayer(steam64: string) returns (err: Err)
      modifies rc
      ensures rc.OneExchange("banplayer " + steam64)
      ensures err == SubstringVerdict(old(rc.script), steam64 + " Banned")
    {
      err := SimpleResponseCommand("banplayer " + steam64, steam64 + " Banned");
    }

    method UnbanPlayer(steam64: string) returns (err: Err)
      modifies rc
      ensures rc.OneExchange("unbanplayer " + steam64)
      ensures err == SubstringVerdict(old(rc.script), steam64 + " Unbanned")
    {
      err := SimpleResponseCommand("unbanplayer " + steam64, steam64 + " Unbanned");
    }

    /** Set to 1 to return to normal speed. */
    method Slomo(multiplier: int) returns (err: Err)
      modifies rc
      ensures rc.OneExchange(Commands.SlomoCommand(multiplier))
      ensures err == VoidVerdict(old(rc.script))
    {
      err := EmptyResponseCommand(Commands.SlomoCommand(multiplier));
    }

    /** Wild dinosaurs eventually respawn. */
    method DestroyWildDinos() returns (err: Err)
      modifies rc
      ensures rc.OneExchange("destroywilddinos")
      ensures err == VoidVerdict(old(rc.script))
    {
      err := EmptyResponseCommand("destroywilddinos");
    }

    /** Like `DestroyWildDinos`, and tamed dinosaurs are killed as well. */
    method DestroyAllEnemies() returns (err: Err)
      modifies rc
      ensures rc.OneExchange("destroyallenemies")
      ensures err == VoidVerdict(old(rc.script))
    {
      err := EmptyResponseCommand("destroyallenemies");
    }
  }

  /** The confirmation checks are not anchored: a reply confirming the kick
      of a longer id that ends with `steam64` confirms the kick of
      `steam64`. */
  lemma KickConfirmedByLongerId(other: string, steam64: string)
    requires !Contains(other + steam64 + " Kicked", NoResponse)
    ensures SubstringVerdict(Replied(other + steam64 + " Kicked"), steam64 + " Kicked") == Nil
  {
    assert other + steam64 + " Kicked" == other + (steam64 + " Kicked") + [];
    SubstringAnywhere(other, steam64 + " Kicked", []);
  }

  /** A reply confirming `word` for an id confirms the command that expects
      `word` and fails one that expects `other` for the same id, when
      `other` cannot line up with `word`. */
  lemma ReplyConfirmsOnlyItsWord(steam64: string, word: string, other: string)
    requires 1 < |other| <= |word| && other[1] !in word[1..|word| - |other| + 2]
    requires !Contains(steam64 + word, NoResponse)
    ensures SubstringVerdict(Replied(steam64 + word), steam64 + word) == Nil
    ensures SubstringVerdict(Replied(steam64 + word), steam64 + other) == FailResponse
  {
    Commands.ConfirmationExcludes(steam64, word, other, 1);
    assert steam64 + word == [] + (steam64 + word) + [];
    SubstringAnywhere([], steam64 + word, []);
  }

  /** The server's reply to an unban confirms `UnbanPlayer` and fails
      `BanPlayer` for the same id. */
  lemma UnbanReplyFailsBan(steam64: string)
    requires !Contains(steam64 + " Unbanned", NoResponse)
    ensures SubstringVerdict(Replied(steam64 + " Unbanned"), steam64 + " Unbanned") == Nil
    ensures SubstringVerdict(Replied(steam64 + " Unbanned"), steam64 + " Banned") == FailResponse
  {
    ReplyConfirmsOnlyItsWord(steam64, " Unbanned", " Banned");
  }

  /** The server's reply to a removal from the whitelist confirms
      `RemoveWhitelist` and fails `WhitelistPlayer` for the same id. */
  lemma DisallowReplyFailsWhitelist(steam64: string)
    requires !Contains(steam64 + " Disallowed", NoResponse)
    ensures SubstringVerdict(Replied(steam64 + " Disallowed"), steam64 + " Disallowed") == Nil
    ensures SubstringVerdict(Replied(steam64 + " Disallowed"), steam64 + " Allow") == FailResponse
  {
    ReplyConfirmsOnlyItsWord(steam64, " Disallowed", " Allow");
  }
}

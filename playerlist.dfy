// The reply of `listplayers` and its parser: the regular expression
// `\d+\. ([^,]+), (\d+)` applied with `FindAllStringSubmatch(resp, -1)`,
// one `ARKPlayer{m[1], m[2]}` per match (arkrcon/arkrcon.go:52-57 and
// arkrcon.go:50-55).
//
// The pattern is matched by hand, following RE2's leftmost-first rules. At
// a given start none of its greedy loops can give anything back usefully:
// `\d+` must be followed by `.`, which is not a digit; `[^,]+` must be
// followed by `,`, which it cannot contain; the final `\d+` ends the
// pattern. So a match at a start exists exactly when each loop, run to its
// longest, is followed by what the pattern needs next.
module PlayerList {
  import opened GoStrings

  /** `ARKPlayer`: one connected player. */
  datatype Player = Player(username: string, steam64: string)

  /** What any listed player looks like: a non-empty name without comma and
      a non-empty run of decimal digits. */
  predicate WellFormed(p: Player) {
    p.username != [] && All(p.username, IsNotComma) &&
    p.steam64 != [] && All(p.steam64, IsDigit)
  }

  /** A submatch `[whole, name, id]` of the pattern: the whole match is an
      index, `". "`, the name, `", "` and the id. */
  predicate PlayerSubmatch(m: seq<string>) {
    |m| == 3 &&
    var k := |m[0]| - |m[1]| - |m[2]| - 4;
    k > 0 && All(m[0][..k], IsDigit) &&
    m[0] == m[0][..k] + ". " + m[1] + ", " + m[2] &&
    WellFormed(Player(m[1], m[2]))
  }

  /** The pattern tried at the first character of `t`. */
  function MatchAt(t: string): (m: Option<seq<string>>)
    ensures m.Some? ==> PlayerSubmatch(m.value) && HasPrefix(t, m.value[0])
    ensures m.Some? ==> |m.value[0]| == |t| || !IsDigit(t[|m.value[0]|])
  {
    var d := Span(t, 0, IsDigit);
    if d == 0 || d + 2 > |t| || t[d] != '.' || t[d + 1] != ' ' then None
    else
      var n := Span(t, d + 2, IsNotComma);
      if n == d + 2 || n + 3 > |t| || t[n + 1] != ' ' || !IsDigit(t[n + 2]) then None
      else
        var e := Span(t, n + 2, IsDigit);
        AllSlice(t, 0, d, IsDigit);
        AllSlice(t, d + 2, n, IsNotComma);
        AllSlice(t, n + 2, e, IsDigit);
        MatchPieces(t, d, n, e);
        Some([t[..e], t[d + 2..n], t[n + 2..e]])
  }

  /** The text of a match cut at its two separators. */
  lemma MatchPieces(t: string, d: nat, n: nat, e: nat)
    requires d + 2 <= n && n + 2 <= e <= |t|
    requires t[d] == '.' && t[d + 1] == ' ' && t[n] == ',' && t[n + 1] == ' '
    ensures t[..e] == t[..d] + ". " + t[d + 2..n] + ", " + t[n + 2..e]
    ensures t[..e][..d] == t[..d]
  {
    assert t[d..d + 2] == ". " && t[n..n + 2] == ", ";
    assert t[..e] == t[..d] + t[d..d + 2] + t[d + 2..n] + t[n..n + 2] + t[n + 2..e];
  }

  /** `FindAllStringSubmatch(s, -1)`: the leftmost match, then the leftmost
      match in what follows it, and so on. */
  function Submatches(s: string): (all: seq<seq<string>>)
    ensures forall i :: 0 <= i < |all| ==> PlayerSubmatch(all[i])
    decreases |s|
  {
    if s == [] then []
    else
      match MatchAt(s)
      case Some(m) => [m] + Submatches(s[|m[0]|..])
      case None => Submatches(s[1..])
  }

  /** The list `ListPlayers` builds from a reply read without error. */
  function Players(reply: string): (ps: seq<Player>)
    ensures |ps| == |Submatches(reply)|
    ensures forall i :: 0 <= i < |ps| ==> WellFormed(ps[i])
  {
    var all := Submatches(reply);
    seq(|all|, i requires 0 <= i < |all| => Player(all[i][1], all[i][2]))
  }

  /** The `for _, m := range all` loop of `ListPlayers`. */
  method CollectPlayers(all: seq<seq<string>>) returns (list: seq<Player>)
    requires forall i :: 0 <= i < |all| ==> |all[i]| == 3
    ensures |list| == |all|
    ensures forall i :: 0 <= i < |all| ==> list[i] == Player(all[i][1], all[i][2])
  {
    list := [];
    for i := 0 to |all|
      invariant |list| == i
      invariant forall j :: 0 <= j < i ==> list[j] == Player(all[j][1], all[j][2])
    {
      list := list + [Player(all[i][1], all[i][2])];
    }
  }

  /** The records come from matches that stand in the reply in the order
      of the list, without overlapping. */
  lemma {:induction false} SubmatchesInOrder(s: string)
    ensures InOrder(s, Submatches(s))
    decreases |s|
  {
    if s != [] {
      match MatchAt(s)
      case Some(m) =>
        SubmatchesInOrder(s[|m[0]|..]);
        assert OccursAt(s, m[0], 0);
        assert Submatches(s)[1..] == Submatches(s[|m[0]|..]);
      case None =>
        SubmatchesInOrder(s[1..]);
        InOrderExtend(s, Submatches(s[1..]));
    }
  }

  /** A reply without a comma (the `No Players Connected` banner, the empty
      reply) lists nobody. */
  lemma {:induction false} NoCommaNoPlayers(s: string)
    requires ',' !in s
    ensures Submatches(s) == [] && Players(s) == []
    decreases |s|
  {
    if s != [] {
      assert ',' !in s[1..];
      NoCommaNoPlayers(s[1..]);
    }
  }

  lemma NoPlayersBanner(reply: string)
    requires reply == "No Players Connected"
    ensures Players(reply) == []
  {
    NoCommaNoPlayers(reply);
  }

  /** One line of a roster: `<index>. <name>, <steam64>`. */
  function Line(index: nat, p: Player): string {
    NatDigits(index) + ". " + p.username + ", " + p.steam64
  }

  /** Players numbered from `first`, one per line. */
  function Roster(first: nat, ps: seq<Player>): string
    decreases |ps|
  {
    if ps == [] then ""
    else if |ps| == 1 then Line(first, ps[0])
    else Line(first, ps[0]) + "\n" + Roster(first + 1, ps[1..])
  }

  /** Where the pieces of a line stand in the line followed by `rest`. */
  lemma LineParts(index: nat, p: Player, rest: string)
    requires WellFormed(p)
    ensures var t, d := Line(index, p) + rest, |NatDigits(index)|;
      var n := d + 2 + |p.username|;
      |t| == |Line(index, p)| + |rest| && |Line(index, p)| == n + 2 + |p.steam64| &&
      t[..d] == NatDigits(index) && t[d] == '.' && t[d + 1] == ' ' &&
      t[d + 2..n] == p.username && t[n] == ',' && t[n + 1] == ' ' &&
      t[n + 2..n + 2 + |p.steam64|] == p.steam64 &&
      t[..|Line(index, p)|] == Line(index, p) && t[|Line(index, p)|..] == rest
  {
    IndexedParts(NatDigits(index), p, rest);
  }

  /** A well-formed line is matched whole, whatever non-digit follows it. */
  lemma MatchLine(index: nat, p: Player, rest: string)
    requires WellFormed(p)
    requires rest == [] || !IsDigit(rest[0])
    ensures MatchAt(Line(index, p) + rest) == Some([Line(index, p), p.username, p.steam64])
  {
    MatchIndexed(NatDigits(index), p, rest);
  }

  /** The converse of `MatchAt`'s contract: a text of the pattern's shape,
      with any run of digits as its index (leading zeros included), is
      matched whole, with the name and the id as the groups. */
  lemma MatchIndexed(idx: string, p: Player, rest: string)
    requires idx != [] && All(idx, IsDigit) && WellFormed(p)
    requires rest == [] || !IsDigit(rest[0])
    ensures var line := idx + ". " + p.username + ", " + p.steam64;
      MatchAt(line + rest) == Some([line, p.username, p.steam64])
  {
    var line := idx + ". " + p.username + ", " + p.steam64;
    var t := line + rest;
    var d := |idx|;
    var n, e := d + 2 + |p.username|, |line|;
    IndexedParts(idx, p, rest);
    assert e == |t| || t[e] == rest[0];
    SpansOf(t, d, n, e, idx, p.username, p.steam64);
    MatchAtSpans(t, d, n, e);
  }

  /** Where the pieces of a line with the index `idx` stand in the line
      followed by `rest`. */
  lemma IndexedParts(idx: string, p: Player, rest: string)
    ensures var line := idx + ". " + p.username + ", " + p.steam64;
      var t, d := line + rest, |idx|;
      var n := d + 2 + |p.username|;
      |t| == |line| + |rest| && |line| == n + 2 + |p.steam64| &&
      t[..d] == idx && t[d] == '.' && t[d + 1] == ' ' &&
      t[d + 2..n] == p.username && t[n] == ',' && t[n + 1] == ' ' &&
      t[n + 2..n + 2 + |p.steam64|] == p.steam64 &&
      t[..|line|] == line && t[|line|..] == rest
  {
    var t := idx + ". " + p.username + ", " + p.steam64 + rest;
    assert t == idx + ". " + p.username + ", " + p.steam64 + rest;
  }

  /** The three runs of the pattern in a text laid out as a line. */
  lemma SpansOf(t: string, d: nat, n: nat, e: nat, idx: string, name: string, id: string)
    requires d == |idx| && n == d + 2 + |name| && e == n + 2 + |id| <= |t|
    requires t[..d] == idx && idx != [] && All(idx, IsDigit) && t[d] == '.' && t[d + 1] == ' '
    requires t[d + 2..n] == name && All(name, IsNotComma) && t[n] == ',' && t[n + 1] == ' '
    requires t[n + 2..e] == id && id != [] && All(id, IsDigit) && (e == |t| || !IsDigit(t[e]))
    ensures Span(t, 0, IsDigit) == d && Span(t, d + 2, IsNotComma) == n && Span(t, n + 2, IsDigit) == e
    ensures IsDigit(t[n + 2])
  {
    SliceAll(t, 0, d, IsDigit);
    SpanIs(t, 0, d, IsDigit);
    SliceAll(t, d + 2, n, IsNotComma);
    SpanIs(t, d + 2, n, IsNotComma);
    SliceAll(t, n + 2, e, IsDigit);
    SpanIs(t, n + 2, e, IsDigit);
  }

  /** The match at the start of `t` read off the three runs of the pattern. */
  lemma MatchAtSpans(t: string, d: nat, n: nat, e: nat)
    requires Span(t, 0, IsDigit) == d && 0 < d && d + 2 <= |t| && t[d] == '.' && t[d + 1] == ' '
    requires Span(t, d + 2, IsNotComma) == n && d + 2 < n && n + 3 <= |t| && t[n + 1] == ' '
    requires IsDigit(t[n + 2]) && Span(t, n + 2, IsDigit) == e
    ensures MatchAt(t) == Some([t[..e], t[d + 2..n], t[n + 2..e]])
  {
  }

  lemma SkipNewline(rest: string)
    ensures Submatches("\n" + rest) == Submatches(rest)
  {
    assert ("\n" + rest)[1..] == rest;
    SpanIs("\n" + rest, 0, 0, IsDigit);
  }

  /** A line followed by a newline and more text yields its record, then
      the records of the text. */
  lemma SubmatchesAfterLine(index: nat, p: Player, rest: string)
    requires WellFormed(p)
    ensures Submatches(Line(index, p) + ("\n" + rest))
         == [[Line(index, p), p.username, p.steam64]] + Submatches(rest)
  {
    var line := Line(index, p);
    MatchLine(index, p, "\n" + rest);
    LineParts(index, p, "\n" + rest);
    SkipNewline(rest);
  }

  /** A line alone yields its record. */
  lemma SubmatchesOfLine(index: nat, p: Player)
    requires WellFormed(p)
    ensures Submatches(Line(index, p)) == [[Line(index, p), p.username, p.steam64]]
  {
    var line := Line(index, p);
    MatchLine(index, p, "");
    assert line + "" == line;
    assert line[|line|..] == [];
  }

  /** A roster of several players yields the record of its first line,
      then those of the rest. */
  lemma RosterStep(first: nat, ps: seq<Player>)
    requires |ps| > 1 && WellFormed(ps[0])
    ensures Submatches(Roster(first, ps))
         == [[Line(first, ps[0]), ps[0].username, ps[0].steam64]] + Submatches(Roster(first + 1, ps[1..]))
  {
    var line, rest := Line(first, ps[0]), Roster(first + 1, ps[1..]);
    assert Roster(first, ps) == line + ("\n" + rest);
    SubmatchesAfterLine(first, ps[0], rest);
  }

  /** Every line of a roster yields its record, in roster order. */
  lemma {:induction false} RosterSubmatches(first: nat, ps: seq<Player>)
    requires forall i :: 0 <= i < |ps| ==> WellFormed(ps[i])
    ensures |Submatches(Roster(first, ps))| == |ps|
    ensures forall i :: 0 <= i < |ps| ==>
      Submatches(Roster(first, ps))[i][1..] == [ps[i].username, ps[i].steam64]
    decreases |ps|
  {
    if |ps| == 1 {
      SubmatchesOfLine(first, ps[0]);
    } else if |ps| > 1 {
      var head := [Line(first, ps[0]), ps[0].username, ps[0].steam64];
      var tail := Submatches(Roster(first + 1, ps[1..]));
      var all := Submatches(Roster(first, ps));
      RosterStep(first, ps);
      RosterSubmatches(first + 1, ps[1..]);
      assert all == [head] + tail;
      forall i | 0 <= i < |ps|
        ensures all[i][1..] == [ps[i].username, ps[i].steam64]
      {
        if i > 0 {
          assert all[i] == tail[i - 1] && ps[i] == ps[1..][i - 1];
        }
      }
    }
  }

  /** Parsing a roster gives back its players: the parser keeps every
      well-formed line, in order. */
  lemma RosterRoundTrip(first: nat, ps: seq<Player>)
    requires forall i :: 0 <= i < |ps| ==> WellFormed(ps[i])
    ensures Players(Roster(first, ps)) == ps
  {
    RosterSubmatches(first, ps);
  }

  /** The reply documented for `listplayers`. */
  lemma DocumentedReply(reply: string)
    requires reply == "0. CyFreeze, 76561198025588951"
    ensures Players(reply) == [Player("CyFreeze", "76561198025588951")]
  {
    var p := Player("CyFreeze", "76561198025588951");
    DocumentedReplyIsLine(reply);
    assert Roster(0, [p]) == Line(0, p);
    RosterReply(0, [p], reply);
  }

  lemma DocumentedReplyIsLine(reply: string)
    requires reply == "0. CyFreeze, 76561198025588951"
    ensures reply == Line(0, Player("CyFreeze", "76561198025588951"))
  {
    LineZero(Player("CyFreeze", "76561198025588951"));
    assert reply == "0. " + "CyFreeze" + ", " + "76561198025588951";
  }

  lemma LineZero(p: Player)
    ensures Line(0, p) == "0. " + p.username + ", " + p.steam64
  {
  }

  lemma RosterReply(first: nat, ps: seq<Player>, reply: string)
    requires forall i :: 0 <= i < |ps| ==> WellFormed(ps[i])
    requires reply == Roster(first, ps)
    ensures Players(reply) == ps
  {
    RosterRoundTrip(first, ps);
  }

  /** Two players on two lines. */
  lemma TwoPlayerReply(reply: string)
    requires reply == "0. Alice, 111\n1. Bob, 222"
    ensures Players(reply) == [Player("Alice", "111"), Player("Bob", "222")]
  {
    TwoPlayerReplyIsRoster(reply);
    RosterReply(0, [Player("Alice", "111"), Player("Bob", "222")], reply);
  }

  lemma TwoPlayerReplyIsRoster(reply: string)
    requires reply == "0. Alice, 111\n1. Bob, 222"
    ensures reply == Roster(0, [Player("Alice", "111"), Player("Bob", "222")])
  {
    var ps := [Player("Alice", "111"), Player("Bob", "222")];
    assert ps[1..] == [ps[1]];
    assert Roster(0, ps) == Line(0, ps[0]) + "\n" + Line(1, ps[1]);
    LineZero(ps[0]);
    assert NatDigits(1) == "1";
    assert Line(1, ps[1]) == "1. Bob, 222";
  }
}

// The reply of `getchat` and its parser: the regular expression
// `(\w+)\s*(?:\(([\w\s]+)\))?:\s*(.*?)$` applied with
// `FindAllStringSubmatch(resp, -1)`, one `ARKChatMsg{m[1], m[2], m[3],
// strings.HasPrefix(m[1], "SERVER")}` per match (arkrcon/arkrcon.go:101-106
// and arkrcon.go:121-126).
//
// The pattern has no `(?m)` flag, so `$` matches only at the end of the
// whole reply and `.` never crosses a newline: a match must run to the end
// of the reply, with no newline after the colon's trailing blanks. The
// parser therefore reports at most one message, taken from the end of the
// reply.
//
// Matching follows RE2's leftmost-first rules. At a given start, no
// alternative that backtracking would try can succeed where the greedy
// choice failed: a shorter `\w+` or `[\w\s]+` leaves a word character
// where `(`, `)` or `:` is needed; a shorter `\s*` before the group leaves
// a blank there; skipping the group leaves `(` where `:` is needed; and a
// shorter `\s*` after the colon leaves a text that still holds the same
// newline. So a match at a start exists exactly when the greedy choices
// succeed, and its groups are the ones they give.
module ChatLog {
  import opened GoStrings

  /** `ARKChatMsg`: one chat line. */
  datatype ChatMsg = ChatMsg(username: string, playername: string, message: string, serverMessage: bool)

  /** The parenthesised display name as it stands in the line; absent when
      the name is empty (`[\w\s]+` cannot match an empty name). */
  function Group(player: string): string {
    if player == [] then [] else "(" + player + ")"
  }

  /** A submatch `[whole, username, playername, message]` of the pattern. */
  ghost predicate ChatSubmatch(m: seq<string>) {
    |m| == 4 && exists blanks1, blanks2 :: ChatParts(m, blanks1, blanks2)
  }

  /** The whole match `m[0]` is the name `m[1]` (word characters), blanks,
      the display name `m[2]` in parentheses, a colon, blanks and the text
      `m[3]` (on one line, starting with no blank). */
  predicate ChatParts(m: seq<string>, blanks1: string, blanks2: string)
    requires |m| == 4
  {
    m[1] != [] && All(m[1], IsWord) &&
    All(m[2], IsWordOrSpace) &&
    All(m[3], IsNotNewline) && (m[3] == [] || !IsSpace(m[3][0])) &&
    All(blanks1, IsSpace) && All(blanks2, IsSpace) &&
    m[0] == m[1] + blanks1 + Group(m[2]) + ":" + blanks2 + m[3]
  }

  /** The parts the greedy matcher finds make a submatch of the pattern. */
  lemma SubmatchOf(t: string, user: string, blanks1: string, player: string, blanks2: string, text: string)
    requires user != [] && All(user, IsWord) && All(player, IsWordOrSpace)
    requires All(blanks1, IsSpace) && All(blanks2, IsSpace)
    requires All(text, IsNotNewline) && (text == [] || !IsSpace(text[0]))
    requires t == user + blanks1 + Group(player) + ":" + blanks2 + text
    ensures ChatSubmatch([t, user, player, text])
  {
    assert ChatParts([t, user, player, text], blanks1, blanks2);
  }

  /** A parenthesised name as a slice of the text. */
  lemma GroupSlice(t: string, v: nat, x: nat)
    requires v + 1 < x < |t| && t[v] == '(' && t[x] == ')'
    ensures t[v..x + 1] == Group(t[v + 1..x])
  {
    assert t[v..x + 1] == [t[v]] + t[v + 1..x] + [t[x]];
  }

  /** Text cut at four positions is the concatenation of the pieces. */
  lemma Pieces(t: string, w: nat, v: nat, c: nat, r: nat)
    requires w <= v <= c < r <= |t|
    ensures t == t[..w] + t[w..v] + t[v..c] + [t[c]] + t[c + 1..r] + t[r..]
  {
    assert t[..c] == t[..w] + t[w..v] + t[v..c];
    assert t == t[..c] + [t[c]] + t[c + 1..r] + t[r..];
  }

  /** `:\s*(.*?)$` with the colon at `c`, after the name `t[..w]`, the
      blanks `t[w..v]` and the display name `player`: the submatch, if the
      rest of the reply after the blanks holds no newline. */
  function AfterColon(t: string, w: nat, v: nat, player: string, c: nat): (m: Option<seq<string>>)
    requires 0 < w <= v <= c < |t| && t[c] == ':'
    requires All(t[..w], IsWord) && All(t[w..v], IsSpace) && All(player, IsWordOrSpace)
    requires t[v..c] == Group(player)
    ensures m.Some? ==> |m.value| == 4 && m.value[0] == t
    ensures m.None? <==> '\n' in t[Span(t, c + 1, IsSpace)..]
  {
    var r := Span(t, c + 1, IsSpace);
    if '\n' in t[r..] then None
    else Some([t, t[..w], player, t[r..]])
  }

  /** What `AfterColon` returns is a submatch of the chat pattern. */
  lemma AfterColonSound(t: string, w: nat, v: nat, player: string, c: nat)
    requires 0 < w <= v <= c < |t| && t[c] == ':'
    requires All(t[..w], IsWord) && All(t[w..v], IsSpace) && All(player, IsWordOrSpace)
    requires t[v..c] == Group(player)
    ensures AfterColon(t, w, v, player, c).Some? ==> ChatSubmatch(AfterColon(t, w, v, player, c).value)
  {
    var r := Span(t, c + 1, IsSpace);
    if '\n' !in t[r..] {
      AllSlice(t, c + 1, r, IsSpace);
      assert All(t[r..], IsNotNewline);
      Pieces(t, w, v, c, r);
      SubmatchOf(t, t[..w], t[w..v], player, t[c + 1..r], t[r..]);
    }
  }

  /** `(?:\(([\w\s]+)\))?:` after the name `t[..w]` and the blanks `t[w..v]`. */
  function AfterBlanks(t: string, w: nat, v: nat): (m: Option<seq<string>>)
    requires 0 < w <= v <= |t|
    requires All(t[..w], IsWord) && All(t[w..v], IsSpace)
    ensures m.Some? ==> |m.value| == 4 && m.value[0] == t
  {
    if v < |t| && t[v] == '(' then AfterGroup(t, w, v)
    else if v < |t| && t[v] == ':' then AfterColon(t, w, v, "", v)
    else None
  }

  /** `\(([\w\s]+)\):` at the `(` in position `v`. */
  function AfterGroup(t: string, w: nat, v: nat): (m: Option<seq<string>>)
    requires 0 < w <= v < |t| && t[v] == '('
    requires All(t[..w], IsWord) && All(t[w..v], IsSpace)
    ensures m.Some? ==> |m.value| == 4 && m.value[0] == t
  {
    var x := Span(t, v + 1, IsWordOrSpace);
    if x == v + 1 || x + 2 > |t| || t[x] != ')' || t[x + 1] != ':' then None
    else
      AllSlice(t, v + 1, x, IsWordOrSpace);
      GroupSlice(t, v, x);
      AfterColon(t, w, v, t[v + 1..x], x + 1)
  }

  /** The pattern tried at the first character of `t`. */
  function MatchAt(t: string): (m: Option<seq<string>>)
    ensures m.Some? ==> |m.value| == 4 && m.value[0] == t
  {
    var w := Span(t, 0, IsWord);
    if w == 0 then None
    else
      var v := Span(t, w, IsSpace);
      AllSlice(t, 0, w, IsWord);
      AllSlice(t, w, v, IsSpace);
      AfterBlanks(t, w, v)
  }

  /** What `AfterBlanks` returns is a submatch of the chat pattern. */
  lemma AfterBlanksSound(t: string, w: nat, v: nat)
    requires 0 < w <= v <= |t|
    requires All(t[..w], IsWord) && All(t[w..v], IsSpace)
    ensures AfterBlanks(t, w, v).Some? ==> ChatSubmatch(AfterBlanks(t, w, v).value)
  {
    if v < |t| && t[v] == '(' {
      assert AfterBlanks(t, w, v) == AfterGroup(t, w, v);
      if AfterGroup(t, w, v).Some? {
        GroupedSound(t, w, v, AfterGroup(t, w, v).value);
      }
    } else if v < |t| && t[v] == ':' {
      assert AfterBlanks(t, w, v) == AfterColon(t, w, v, "", v);
      AfterColonSound(t, w, v, "", v);
    }
  }

  /** What `AfterGroup` returns is a submatch of the chat pattern. */
  lemma GroupedSound(t: string, w: nat, v: nat, m: seq<string>)
    requires 0 < w <= v < |t| && t[v] == '('
    requires All(t[..w], IsWord) && All(t[w..v], IsSpace)
    requires AfterGroup(t, w, v) == Some(m)
    ensures ChatSubmatch(m)
  {
    var x := Span(t, v + 1, IsWordOrSpace);
    GroupedIsAfterColon(t, w, v, x);
    AfterColonSound(t, w, v, t[v + 1..x], x + 1);
  }

  /** Past a well-formed `(name):`, `AfterGroup` is `AfterColon` at the
      colon. */
  lemma GroupedIsAfterColon(t: string, w: nat, v: nat, x: nat)
    requires 0 < w <= v < |t| && t[v] == '('
    requires All(t[..w], IsWord) && All(t[w..v], IsSpace)
    requires x == Span(t, v + 1, IsWordOrSpace)
    requires x > v + 1 && x + 2 <= |t| && t[x] == ')' && t[x + 1] == ':'
    ensures All(t[v + 1..x], IsWordOrSpace) && t[v..x + 1] == Group(t[v + 1..x])
    ensures AfterGroup(t, w, v) == AfterColon(t, w, v, t[v + 1..x], x + 1)
  {
    AllSlice(t, v + 1, x, IsWordOrSpace);
    GroupSlice(t, v, x);
  }

  /** Every match of the pattern is a submatch of the chat pattern: a
      name, an optional display name in parentheses, a colon and the text
      up to the end of the reply. */
  lemma MatchAtSound(t: string)
    ensures MatchAt(t).Some? ==> ChatSubmatch(MatchAt(t).value)
  {
    var w := Span(t, 0, IsWord);
    if w != 0 {
      var v := Span(t, w, IsSpace);
      AllSlice(t, 0, w, IsWord);
      AllSlice(t, w, v, IsSpace);
      AfterBlanksSound(t, w, v);
    }
  }

  /** The converse of `MatchAtSound`: a text of the pattern's shape, with
      any blanks between the name and the `(` or `:` and any blanks after
      the colon, is matched whole, with its name, display name and text as
      the groups. */
  lemma MatchParts(t: string, user: string, blanks1: string, player: string, blanks2: string, text: string)
    requires ChatParts([t, user, player, text], blanks1, blanks2)
    ensures MatchAt(t) == Some([t, user, player, text])
  {
    Layout(t, user, blanks1, Group(player), blanks2, text);
    MatchLaidOut(t, |user|, |user| + |blanks1|, player, blanks2, text);
  }

  /** `MatchParts` with the pieces given as slices of the text. */
  lemma MatchLaidOut(t: string, w: nat, v: nat, player: string, blanks2: string, text: string)
    requires 0 < w <= v && v + |Group(player)| + 1 + |blanks2| + |text| == |t|
    requires All(t[..w], IsWord) && All(t[w..v], IsSpace) && All(player, IsWordOrSpace)
    requires t[v..v + |Group(player)|] == Group(player) && t[v + |Group(player)|] == ':'
    requires All(blanks2, IsSpace) && All(text, IsNotNewline) && (text == [] || !IsSpace(text[0]))
    requires t[v + |Group(player)| + 1..v + |Group(player)| + 1 + |blanks2|] == blanks2
    requires t[v + |Group(player)| + 1 + |blanks2|..] == text
    ensures MatchAt(t) == Some([t, t[..w], player, text])
  {
    if player == [] {
      MatchPlainLaidOut(t, w, v, blanks2, text);
    } else {
      MatchGroupedLaidOut(t, w, v, player, blanks2, text);
    }
  }

  lemma MatchPlainLaidOut(t: string, w: nat, v: nat, blanks2: string, text: string)
    requires 0 < w <= v && v + 1 + |blanks2| + |text| == |t|
    requires All(t[..w], IsWord) && All(t[w..v], IsSpace) && t[v] == ':'
    requires All(blanks2, IsSpace) && All(text, IsNotNewline) && (text == [] || !IsSpace(text[0]))
    requires t[v + 1..v + 1 + |blanks2|] == blanks2 && t[v + 1 + |blanks2|..] == text
    ensures MatchAt(t) == Some([t, t[..w], [], text])
  {
    HeadParts(t, w, v, []);
    assert MatchAt(t) == AfterBlanks(t, w, v);
    assert t[v..v] == Group([]);
    assert AfterBlanks(t, w, v) == AfterColon(t, w, v, [], v);
    ColonParts(t, w, v, [], v, blanks2, text);
  }

  lemma MatchGroupedLaidOut(t: string, w: nat, v: nat, player: string, blanks2: string, text: string)
    requires player != [] && 0 < w <= v && v + |player| + 3 + |blanks2| + |text| == |t|
    requires All(t[..w], IsWord) && All(t[w..v], IsSpace) && All(player, IsWordOrSpace)
    requires t[v..v + |Group(player)|] == Group(player) && t[v + |player| + 2] == ':'
    requires All(blanks2, IsSpace) && All(text, IsNotNewline) && (text == [] || !IsSpace(text[0]))
    requires t[v + |player| + 3..v + |player| + 3 + |blanks2|] == blanks2
    requires t[v + |player| + 3 + |blanks2|..] == text
    ensures MatchAt(t) == Some([t, t[..w], player, text])
  {
    var x := v + 1 + |player|;
    GroupParts(t, v, player);
    HeadParts(t, w, v, player);
    assert MatchAt(t) == AfterBlanks(t, w, v);
    assert AfterBlanks(t, w, v) == AfterGroup(t, w, v);
    RunOf(t, v + 1, x, IsWordOrSpace);
    GroupedIsAfterColon(t, w, v, x);
    ColonParts(t, w, v, player, x + 1, blanks2, text);
  }

  /** The name and the blanks after it are the greedy runs `\w+` and `\s*`
      when a `(` or `:` follows them. */
  lemma HeadParts(t: string, w: nat, v: nat, player: string)
    requires 0 < w <= v < |t| && All(t[..w], IsWord) && All(t[w..v], IsSpace)
    requires t[v] == (if player == [] then ':' else '(')
    ensures Span(t, 0, IsWord) == w && Span(t, w, IsSpace) == v
  {
    if w < v {
      assert t[w] == t[w..v][0];
    }
    RunOf(t, 0, w, IsWord);
    RunOf(t, w, v, IsSpace);
  }

  /** `:\s*(.*?)$` at the colon `c`, followed by blanks and a text on one
      line that starts with no blank, captures that text. */
  lemma ColonParts(t: string, w: nat, v: nat, player: string, c: nat, blanks2: string, text: string)
    requires 0 < w <= v <= c < |t| && t[c] == ':'
    requires All(t[..w], IsWord) && All(t[w..v], IsSpace) && All(player, IsWordOrSpace)
    requires t[v..c] == Group(player)
    requires All(blanks2, IsSpace) && All(text, IsNotNewline) && (text == [] || !IsSpace(text[0]))
    requires c + 1 + |blanks2| <= |t|
    requires t[c + 1..c + 1 + |blanks2|] == blanks2 && t[c + 1 + |blanks2|..] == text
    ensures AfterColon(t, w, v, player, c) == Some([t, t[..w], player, text])
  {
    var r := c + 1 + |blanks2|;
    if r < |t| {
      assert t[r] == text[0];
    }
    RunOf(t, c + 1, r, IsSpace);
    assert forall k :: 0 <= k < |t[r..]| ==> t[r..][k] != '\n';
  }

  /** Where the six pieces of a chat text stand in it. */
  lemma Layout(t: string, user: string, blanks1: string, group: string, blanks2: string, text: string)
    requires t == user + blanks1 + group + ":" + blanks2 + text
    ensures var v := |user| + |blanks1|;
      var c := v + |group|;
      |t| == c + 1 + |blanks2| + |text| &&
      t[..|user|] == user && t[|user|..v] == blanks1 && t[v..c] == group && t[c] == ':' &&
      t[c + 1..c + 1 + |blanks2|] == blanks2 && t[c + 1 + |blanks2|..] == text
  {
    var head := user + blanks1 + group;
    Cut3(user, blanks1, group);
    Cut3(head, ":", blanks2 + text);
    assert t == head + ":" + (blanks2 + text);
    Cut3(head + ":", blanks2, text);
  }

  /** The display name between the parentheses of a group in the text. */
  lemma GroupParts(t: string, v: nat, player: string)
    requires player != [] && v + |Group(player)| <= |t| && t[v..v + |Group(player)|] == Group(player)
    ensures t[v] == '(' && t[v + 1..v + 1 + |player|] == player && t[v + 1 + |player|] == ')'
  {
    Cut3("(", player, ")");
    var g := Group(player);
    assert g == "(" + player + ")" && |g| == |player| + 2;
    assert t[v] == t[v..v + |g|][0];
    assert t[v + 1 + |player|] == t[v..v + |g|][1 + |player|];
    forall i | 0 <= i < |player| ensures t[v + 1 + i] == player[i] {
      assert t[v + 1 + i] == t[v..v + |g|][1 + i] == g[1 + i];
    }
    assert t[v + 1..v + 1 + |player|] == player;
  }

  /** A slice of `cls` characters ended by the end of the text or by a
      character outside `cls` is the greedy run from its start. */
  lemma RunOf(t: string, i: nat, j: nat, cls: char -> bool)
    requires i <= j <= |t| && All(t[i..j], cls)
    requires j == |t| || !cls(t[j])
    ensures Span(t, i, cls) == j
  {
    SliceAll(t, i, j, cls);
    SpanIs(t, i, j, cls);
  }

  /** `m` is a submatch whose text ends `s`. */
  predicate EndsWith(s: string, m: seq<string>) {
    |m| > 0 && |m[0]| <= |s| && m[0] == s[|s| - |m[0]|..]
  }

  /** `FindAllStringSubmatch(s, -1)` for the chat pattern. A match always
      ends at the end of `s`, so there is never a second one. */
  function Submatches(s: string): (all: seq<seq<string>>)
    ensures |all| <= 1
    ensures forall i :: 0 <= i < |all| ==> |all[i]| == 4
    decreases |s|
  {
    if s == [] then []
    else
      match MatchAt(s)
      case Some(m) => [m] + Submatches(s[|m[0]|..])
      case None => Submatches(s[1..])
  }

  /** The one match, if any, ends at the end of the reply. */
  lemma {:induction false} SubmatchEndsReply(s: string)
    ensures |Submatches(s)| == 1 ==> EndsWith(s, Submatches(s)[0])
    decreases |s|
  {
    if s != [] {
      match MatchAt(s)
      case Some(m) =>
        assert s[|s| - |m[0]|..] == s;
      case None =>
        SubmatchEndsReply(s[1..]);
        if |Submatches(s)| == 1 {
          var m := Submatches(s)[0];
          assert m == Submatches(s[1..])[0];
          assert s[|s| - |m[0]|..] == s[1..][|s[1..]| - |m[0]|..];
        }
    }
  }

  /** Every submatch found in a reply is one of the chat pattern. */
  lemma {:induction false} SubmatchesSound(s: string)
    ensures forall i :: 0 <= i < |Submatches(s)| ==> ChatSubmatch(Submatches(s)[i])
    decreases |s|
  {
    if s != [] {
      MatchAtSound(s);
      match MatchAt(s)
      case Some(m) =>
        SubmatchesSound(s[|m[0]|..]);
      case None =>
        SubmatchesSound(s[1..]);
    }
  }

  /** Where no match starts, the search moves on by one character. */
  lemma SubmatchesSkipOne(s: string)
    requires s != [] && MatchAt(s) == None
    ensures Submatches(s) == Submatches(s[1..])
  {
  }

  /** The list `GetChat` builds from a reply read without error. */
  function Messages(reply: string): (msgs: seq<ChatMsg>)
    ensures |msgs| <= 1
    ensures forall i :: 0 <= i < |msgs| ==>
      (msgs[i].serverMessage <==> HasPrefix(msgs[i].username, "SERVER"))
  {
    var all := Submatches(reply);
    seq(|all|, i requires 0 <= i < |all| =>
      ChatMsg(all[i][1], all[i][2], all[i][3], HasPrefix(all[i][1], "SERVER")))
  }

  /** A reported message has a non-empty name of word characters, a
      display name of word and space characters, and a text on one line. */
  lemma MessagesShape(reply: string)
    ensures forall i :: 0 <= i < |Messages(reply)| ==>
      Messages(reply)[i].username != [] && All(Messages(reply)[i].username, IsWord) &&
      All(Messages(reply)[i].playername, IsWordOrSpace) &&
      All(Messages(reply)[i].message, IsNotNewline)
  {
    SubmatchesSound(reply);
  }

  /** The `for _, m := range all` loop of `GetChat`. */
  method CollectChat(all: seq<seq<string>>) returns (list: seq<ChatMsg>)
    requires forall i :: 0 <= i < |all| ==> |all[i]| == 4
    ensures |list| == |all|
    ensures forall i :: 0 <= i < |all| ==>
      list[i] == ChatMsg(all[i][1], all[i][2], all[i][3], HasPrefix(all[i][1], "SERVER"))
  {
    list := [];
    for i := 0 to |all|
      invariant |list| == i
      invariant forall j :: 0 <= j < i ==>
        list[j] == ChatMsg(all[j][1], all[j][2], all[j][3], HasPrefix(all[j][1], "SERVER"))
    {
      var m := all[i];
      list := list + [ChatMsg(m[1], m[2], m[3], HasPrefix(m[1], "SERVER"))];
    }
  }

  /** A chat line as the server writes it: `<name>(<display name>): <text>`,
      or `<name>: <text>` without a display name. */
  function ChatLine(user: string, player: string, text: string): string {
    user + Group(player) + ": " + text
  }

  /** The parts of a chat line the pattern can capture whole. */
  predicate WellFormedLine(user: string, player: string, text: string) {
    user != [] && All(user, IsWord) &&
    All(player, IsWordOrSpace) &&
    All(text, IsNotNewline) && (text == [] || !IsSpace(text[0]))
  }

  /** The name of a line runs up to the first character that is neither a
      word character nor a blank, which is `(` or `:`. */
  lemma NameSpan(t: string, user: string, rest: string)
    requires user != [] && All(user, IsWord)
    requires rest != [] && (rest[0] == '(' || rest[0] == ':')
    requires t == user + rest
    ensures Span(t, 0, IsWord) == |user| && Span(t, |user|, IsSpace) == |user|
    ensures t[..|user|] == user && t[|user|] == rest[0]
  {
    assert forall k :: 0 <= k < |user| ==> t[k] == user[k];
    SpanIs(t, 0, |user|, IsWord);
    SpanIs(t, |user|, |user|, IsSpace);
  }

  /** After `: ` the message starts at its first character, which is no
      blank. */
  lemma ColonSpan(t: string, c: nat, text: string)
    requires All(text, IsNotNewline) && (text == [] || !IsSpace(text[0]))
    requires c + 2 + |text| == |t| && t[c..] == ": " + text
    ensures t[c] == ':' && Span(t, c + 1, IsSpace) == c + 2 && t[c + 2..] == text
    ensures '\n' !in t[c + 2..]
  {
    assert t[c..][1] == ' ' && t[c..][0] == ':';
    assert t[c + 2..] == t[c..][2..];
    SpanIs(t, c + 1, c + 2, IsSpace);
  }

  /** A well-formed line, alone, is matched whole. */
  lemma MatchLine(user: string, player: string, text: string)
    requires WellFormedLine(user, player, text)
    ensures MatchAt(ChatLine(user, player, text)) == Some([ChatLine(user, player, text), user, player, text])
  {
    var t := ChatLine(user, player, text);
    var w := |user|;
    NameSpan(t, user, Group(player) + ": " + text);
    AllSlice(t, 0, w, IsWord);
    AllSlice(t, w, w, IsSpace);
    assert MatchAt(t) == AfterBlanks(t, w, w);
    if player == [] {
      MatchPlainLine(t, user, text);
    } else {
      MatchGroupedLine(t, user, player, text);
    }
  }

  lemma MatchPlainLine(t: string, user: string, text: string)
    requires WellFormedLine(user, [], text) && t == ChatLine(user, [], text)
    requires All(t[..|user|], IsWord) && All(t[|user|..|user|], IsSpace)
    ensures AfterBlanks(t, |user|, |user|) == Some([t, user, [], text])
  {
    var w := |user|;
    assert t == user + ": " + text;
    assert t[w..] == ": " + text;
    ColonSpan(t, w, text);
    assert t[w..w] == Group([]);
    assert t[..w] == user;
  }

  lemma MatchGroupedLine(t: string, user: string, player: string, text: string)
    requires WellFormedLine(user, player, text) && player != [] && t == ChatLine(user, player, text)
    requires All(t[..|user|], IsWord) && All(t[|user|..|user|], IsSpace)
    ensures AfterBlanks(t, |user|, |user|) == Some([t, user, player, text])
  {
    var w := |user|;
    var x := w + 1 + |player|;
    GroupedLineParts(t, user, player, text);
    SliceAll(t, w + 1, x, IsWordOrSpace);
    SpanIs(t, w + 1, x, IsWordOrSpace);
    ColonSpan(t, x + 1, text);
  }

  lemma GroupedLineParts(t: string, user: string, player: string, text: string)
    requires player != [] && t == ChatLine(user, player, text)
    ensures |t| == |user| + |player| + 4 + |text|
    ensures t[..|user|] == user && t[|user|] == '('
    ensures t[|user| + 1..|user| + 1 + |player|] == player
    ensures t[|user| + 1 + |player|] == ')'
    ensures t[|user| + 2 + |player|..] == ": " + text
    ensures t[|user|..|user| + 2 + |player|] == Group(player)
  {
    var g, tail := Group(player), ": " + text;
    assert t == user + g + tail;
    Cut3(user, g, tail);
    assert g == "(" + player + ")";
    Cut3("(", player, ")");
    assert t[|user|..|user| + |g|][1..1 + |player|] == t[|user| + 1..|user| + 1 + |player|];
  }

  /** The three pieces of a concatenation as slices of it. */
  lemma Cut3(a: string, b: string, c: string)
    ensures (a + b + c)[..|a|] == a
    ensures (a + b + c)[|a|..|a| + |b|] == b
    ensures (a + b + c)[|a| + |b|..] == c
  {
    var s := a + b + c;
    assert s == a + (b + c);
    assert s[|a|..] == b + c;
  }

  /** Some colon of `s` is followed only by blanks up to the end of `s`. */
  predicate DanglingColon(s: string)
    decreases |s|
  {
    s != [] && (if IsSpace(s[|s| - 1]) then DanglingColon(s[..|s| - 1]) else s[|s| - 1] == ':')
  }

  lemma {:induction false} DanglingColonIntro(s: string, k: nat)
    requires k < |s| && s[k] == ':'
    requires forall j :: k < j < |s| ==> IsSpace(s[j])
    ensures DanglingColon(s)
    decreases |s|
  {
    if k < |s| - 1 {
      DanglingColonIntro(s[..|s| - 1], k);
    }
  }

  lemma {:induction false} DanglingColonSuffix(s: string)
    requires s != [] && DanglingColon(s[1..])
    ensures DanglingColon(s)
    decreases |s|
  {
    var n := |s|;
    if IsSpace(s[n - 1]) {
      assert s[1..][..n - 2] == s[..n - 1][1..];
      DanglingColonSuffix(s[..n - 1]);
    }
  }

  /** Text before the last line that no match can start in: it ends with a
      newline and none of its colons is followed only by blanks. */
  predicate SettledPrefix(pre: string) {
    pre == [] || (pre[|pre| - 1] == '\n' && !DanglingColon(pre))
  }

  /** `line` starts with a run of word characters ended at `q` by `(` or
      `:`, as every chat line does. */
  predicate NameLead(line: string, q: nat) {
    0 < q < |line| && (line[q] == '(' || line[q] == ':') &&
    forall j :: 0 <= j < q ==> IsWord(line[j])
  }

  lemma ChatLineLead(user: string, player: string, text: string)
    requires WellFormedLine(user, player, text)
    ensures NameLead(ChatLine(user, player, text), |user|)
  {
    var line := ChatLine(user, player, text);
    assert line == user + (Group(player) + ": " + text);
  }

  /** No match starts in a settled prefix of a reply whose last line starts
      like a chat line. */
  lemma NoMatchInPrefix(pre: string, line: string, q: nat)
    requires pre != [] && SettledPrefix(pre)
    requires NameLead(line, q)
    ensures MatchAt(pre + line) == None
  {
    var t := pre + line;
    assert HasPrefix(t, pre) && t[|pre| + q] == line[q];
    assert forall j :: |pre| <= j < |pre| + q ==> t[j] == line[j - |pre|];
    NoMatchBeforeName(pre, t, |pre| + q);
  }

  /** A reply whose text after a settled prefix starts with a run of word
      characters ended by `(` or `:` has no match at its first character. */
  lemma NoMatchBeforeName(pre: string, t: string, q: nat)
    requires pre != [] && SettledPrefix(pre) && HasPrefix(t, pre)
    requires |pre| < q < |t| && (t[q] == '(' || t[q] == ':')
    requires forall j :: |pre| <= j < q ==> IsWord(t[j])
    ensures MatchAt(t) == None
  {
    var p := |pre|;
    assert t[p - 1] == '\n';
    var w := Span(t, 0, IsWord);
    if w > 0 {
      var v := Span(t, w, IsSpace);
      AllSlice(t, 0, w, IsWord);
      AllSlice(t, w, v, IsSpace);
      assert !IsWord(t[p - 1]) && !IsSpace(t[p]);
      assert v <= p;
      if v < |t| && t[v] == '(' {
        NoGroupedMatch(pre, t, q, w, v);
      } else if v < |t| && t[v] == ':' {
        if '\n' !in t[Span(t, v + 1, IsSpace)..] {
          NoColonThenBlanks(pre, t, v);
        }
      }
    }
  }

  /** The branch with a display name: its `)` would have to fall at the
      end of the line's leading word run, where `(` or `:` stands. */
  lemma NoGroupedMatch(pre: string, t: string, q: nat, w: nat, v: nat)
    requires pre != [] && SettledPrefix(pre) && HasPrefix(t, pre)
    requires |pre| < q < |t| && (t[q] == '(' || t[q] == ':')
    requires forall j :: |pre| <= j < q ==> IsWord(t[j])
    requires 0 < w <= v < |pre| && t[v] == '('
    requires All(t[..w], IsWord) && All(t[w..v], IsSpace)
    ensures AfterGroup(t, w, v) == None
  {
    var x := Span(t, v + 1, IsWordOrSpace);
    if x == v + 1 || x + 2 > |t| || t[x] != ')' || t[x + 1] != ':' {
      assert AfterGroup(t, w, v) == None;
    } else {
      GroupedIsAfterColon(t, w, v, x);
      GroupedColonNewline(pre, t, q, v, x, x + 1);
    }
  }

  /** A `(name):` that starts inside a settled prefix has a newline after
      its colon and blanks. */
  lemma GroupedColonNewline(pre: string, t: string, q: nat, v: nat, x: nat, c: nat)
    requires pre != [] && SettledPrefix(pre) && HasPrefix(t, pre)
    requires |pre| < q < |t| && (t[q] == '(' || t[q] == ':')
    requires forall j :: |pre| <= j < q ==> IsWord(t[j])
    requires v < |pre| && x == Span(t, v + 1, IsWordOrSpace)
    requires c == x + 1 && c < |t| && t[x] == ')' && t[c] == ':'
    ensures '\n' in t[Span(t, c + 1, IsSpace)..]
  {
    if '\n' !in t[Span(t, c + 1, IsSpace)..] {
      CloseParenInPrefix(pre, t, q, v, x);
      NoColonThenBlanks(pre, t, c);
    }
  }

  /** A run of `[\\w\\s]` that starts inside a settled prefix and reaches
      the line after it runs on through the leading word run to the `(` or
      `:` after it: so a `)` that ends the run lies before the prefix's
      final newline. */
  lemma CloseParenInPrefix(pre: string, t: string, q: nat, v: nat, x: nat)
    requires pre != [] && HasPrefix(t, pre) && pre[|pre| - 1] == '\n'
    requires |pre| < q < |t| && (t[q] == '(' || t[q] == ':')
    requires forall j :: |pre| <= j < q ==> IsWord(t[j])
    requires v < |pre| && x < |t| && x == Span(t, v + 1, IsWordOrSpace) && t[x] == ')'
    ensures x + 1 < |pre|
  {
    assert t[|pre| - 1] == '\n';
  }

  /** Where the rest of a reply after a colon and its blanks holds no
      newline, the colon cannot lie inside a settled prefix. */
  lemma NoColonThenBlanks(pre: string, t: string, c: nat)
    requires pre != [] && SettledPrefix(pre) && HasPrefix(t, pre)
    requires c < |t| && t[c] == ':'
    requires '\n' !in t[Span(t, c + 1, IsSpace)..]
    ensures |pre| <= c
  {
    var p := |pre|;
    assert t[p - 1] == '\n';
    if c < p {
      DanglingColonIntro(pre, c);
    }
  }

  /** A settled prefix contributes nothing: the parser goes straight on to
      the last line. */
  lemma {:induction false} SkipSettledPrefix(pre: string, line: string, q: nat)
    requires SettledPrefix(pre)
    requires NameLead(line, q)
    ensures Submatches(pre + line) == Submatches(line)
    decreases |pre|
  {
    if pre == [] {
      assert pre + line == line;
    } else {
      NoMatchInPrefix(pre, line, q);
      SubmatchesSkipOne(pre + line);
      assert (pre + line)[1..] == pre[1..] + line;
      SettledTail(pre);
      SkipSettledPrefix(pre[1..], line, q);
    }
  }

  /** Dropping the first character of a settled prefix leaves it settled. */
  lemma SettledTail(pre: string)
    requires pre != [] && SettledPrefix(pre)
    ensures SettledPrefix(pre[1..])
  {
    if pre[1..] != [] {
      assert pre[1..][|pre[1..]| - 1] == '\n';
      if DanglingColon(pre[1..]) {
        DanglingColonSuffix(pre);
      }
    }
  }

  /** `GetChat` reports the last line of a reply, and only that line, when
      the text before it is settled. */
  lemma LastLineReported(pre: string, user: string, player: string, text: string)
    requires SettledPrefix(pre)
    requires WellFormedLine(user, player, text)
    ensures Messages(pre + ChatLine(user, player, text))
         == [ChatMsg(user, player, text, HasPrefix(user, "SERVER"))]
  {
    ChatLineLead(user, player, text);
    SkipSettledPrefix(pre, ChatLine(user, player, text), |user|);
    SubmatchesOfLine(user, player, text);
  }

  /** A well-formed line alone yields one submatch, of the whole line. */
  lemma SubmatchesOfLine(user: string, player: string, text: string)
    requires WellFormedLine(user, player, text)
    ensures Submatches(ChatLine(user, player, text)) == [[ChatLine(user, player, text), user, player, text]]
  {
    var line := ChatLine(user, player, text);
    MatchLine(user, player, text);
    assert line[|line|..] == [];
  }

  /** The three-line reply documented for `getchat` yields one message, from
      its last line. */
  lemma DocumentedReply(reply: string)
    requires reply == "SERVER: foo\nCyFreeze (Bob The Builder): foobar\nValki(Valki): wup wup"
    ensures Messages(reply) == [ChatMsg("Valki", "Valki", "wup wup", false)]
  {
    var pre := "SERVER: foo\nCyFreeze (Bob The Builder): foobar\n";
    DocumentedReplySplit(reply, pre);
    DocumentedPrefixSettled(pre);
    assert WellFormedLine("Valki", "Valki", "wup wup");
    LastLineReported(pre, "Valki", "Valki", "wup wup");
    assert !HasPrefix("Valki", "SERVER");
  }

  lemma DocumentedReplySplit(reply: string, pre: string)
    requires reply == "SERVER: foo\nCyFreeze (Bob The Builder): foobar\nValki(Valki): wup wup"
    requires pre == "SERVER: foo\nCyFreeze (Bob The Builder): foobar\n"
    ensures reply == pre + ChatLine("Valki", "Valki", "wup wup")
  {
    ValkiLine();
  }

  lemma ValkiLine()
    ensures ChatLine("Valki", "Valki", "wup wup") == "Valki(Valki): wup wup"
  {
    assert Group("Valki") == "(Valki)";
  }

  lemma DocumentedPrefixSettled(pre: string)
    requires pre == "SERVER: foo\nCyFreeze (Bob The Builder): foobar\n"
    ensures SettledPrefix(pre)
  {
    var n := |pre|;
    assert IsSpace(pre[n - 1]) && pre[n - 2] == 'r';
    assert !DanglingColon(pre[..n - 1]);
  }

  /** A reply that is one chat text of the pattern's shape, with any
      blanks around the display name and the colon, yields its message. */
  lemma MessagesOfParts(t: string, user: string, blanks1: string, player: string, blanks2: string, text: string)
    requires ChatParts([t, user, player, text], blanks1, blanks2)
    ensures Messages(t) == [ChatMsg(user, player, text, HasPrefix(user, "SERVER"))]
  {
    MatchParts(t, user, blanks1, player, blanks2, text);
    assert t[|t|..] == [];
  }

  /** The one-line reply documented for `getchat`, with a blank between the
      name and the display name, yields its message. */
  lemma DocumentedLine(reply: string)
    requires reply == "CyFreeze (Bob The Builder): foobar"
    ensures Messages(reply) == [ChatMsg("CyFreeze", "Bob The Builder", "foobar", false)]
  {
    DocumentedLineParts(reply);
    MessagesOfParts(reply, "CyFreeze", " ", "Bob The Builder", " ", "foobar");
    assert "CyFreeze"[0] != "SERVER"[0];
  }

  lemma DocumentedLineParts(reply: string)
    requires reply == "CyFreeze (Bob The Builder): foobar"
    ensures ChatParts([reply, "CyFreeze", "Bob The Builder", "foobar"], " ", " ")
  {
    BobLine();
    assert All("Bob The Builder", IsWordOrSpace);
  }

  lemma BobLine()
    ensures "CyFreeze" + " " + Group("Bob The Builder") + ":" + " " + "foobar" == "CyFreeze (Bob The Builder): foobar"
  {
    assert Group("Bob The Builder") == "(Bob The Builder)";
  }

  /** The server test is a prefix test: a player named `SERVERA` is taken
      for the server. */
  lemma ServerPrefixMisfires(reply: string)
    requires reply == "SERVERA: hi"
    ensures Messages(reply) == [ChatMsg("SERVERA", "", "hi", true)]
  {
    assert reply == [] + ChatLine("SERVERA", "", "hi");
    LastLineReported([], "SERVERA", "", "hi");
  }

  /** Blanks may cross a newline: the name of the one message can stand on
      an earlier line than its text. */
  lemma NameFromEarlierLine(reply: string)
    requires reply == "bob:\nhello"
    ensures Messages(reply) == [ChatMsg("bob", "", "hello", false)]
  {
    SpanIs(reply, 0, 3, IsWord);
    SpanIs(reply, 3, 3, IsSpace);
    SpanIs(reply, 4, 5, IsSpace);
    assert reply[..3] == "bob" && reply[3..3] == [] && reply[5..] == "hello";
    assert MatchAt(reply) == Some([reply, "bob", "", "hello"]);
    assert reply[|reply|..] == [];
    assert !HasPrefix("bob", "SERVER");
  }
}

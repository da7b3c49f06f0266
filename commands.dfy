// The command strings the client writes and the confirmation texts it looks
// for. Arguments are inserted with `fmt.Sprintf` as they are: the chat
// commands wrap them in double quotes without escaping, the other commands
// join them with a single space and no quoting.
module Commands {
  import opened GoStrings

  /** `serverchattoplayer "%s" "%s"`: the command word, then the player
      and the message each in double quotes, nothing escaped. */
  function ChatToPlayerCommand(player: string, message: string): (cmd: string)
    ensures |cmd| == 24 + |player| + |message|
    ensures HasPrefix(cmd, "serverchattoplayer \"") && cmd[|cmd| - 1] == '"'
    ensures cmd[20..20 + |player|] == player
    ensures cmd[20 + |player|..23 + |player|] == "\" \""
    ensures cmd[23 + |player|..|cmd| - 1] == message
  {
    "serverchattoplayer \"" + player + "\" \"" + message + "\""
  }

  /** `serverchatto "%s" "%s"`: the command word, then the id and the
      message each in double quotes, nothing escaped. */
  function ChatToIdCommand(steam64: string, message: string): (cmd: string)
    ensures |cmd| == 18 + |steam64| + |message|
    ensures HasPrefix(cmd, "serverchatto \"") && cmd[|cmd| - 1] == '"'
    ensures cmd[14..14 + |steam64|] == steam64
    ensures cmd[14 + |steam64|..17 + |steam64|] == "\" \""
    ensures cmd[17 + |steam64|..|cmd| - 1] == message
  {
    "serverchatto \"" + steam64 + "\" \"" + message + "\""
  }

  /** `slomo %d`: the command word, a blank and the decimal multiplier,
      with a minus sign exactly when it is negative. */
  function SlomoCommand(multiplier: int): (cmd: string)
    ensures HasPrefix(cmd, "slomo ") && |cmd| > 6
    ensures cmd[6] == '-' <==> multiplier < 0
    ensures multiplier >= 0 ==> All(cmd[6..], IsDigit)
  {
    DecimalSign(multiplier);
    "slomo " + DecimalString(multiplier)
  }

  /** How a reader of the command line splits it at `sep`: the pieces
      between consecutive separators, in order. */
  function Split(s: string, sep: char): (parts: seq<string>)
    ensures |parts| >= 1
    decreases |s|
  {
    if s == [] then [[]]
    else
      var rest := Split(s[1..], sep);
      if s[0] == sep then [[]] + rest else [[s[0]] + rest[0]] + rest[1..]
  }

  /** The pieces glued back together with `sep` between them. */
  function Join(parts: seq<string>, sep: char): string
    requires |parts| >= 1
    decreases |parts|
  {
    if |parts| == 1 then parts[0] else parts[0] + [sep] + Join(parts[1..], sep)
  }

  lemma {:induction false} SplitPrefix(a: string, sep: char, b: string)
    requires sep !in a
    ensures Split(a + [sep] + b, sep) == [a] + Split(b, sep)
    decreases |a|
  {
    if a == [] {
      assert a + [sep] + b == [sep] + b;
      assert ([sep] + b)[1..] == b;
    } else {
      SplitPrefix(a[1..], sep, b);
      assert (a + [sep] + b)[1..] == a[1..] + [sep] + b;
      assert [a[0]] + a[1..] == a;
    }
  }

  lemma {:induction false} SplitWhole(a: string, sep: char)
    requires sep !in a
    ensures Split(a, sep) == [a]
    decreases |a|
  {
    if a != [] {
      SplitWhole(a[1..], sep);
      assert [a[0]] + a[1..] == a;
    }
  }

  /** Splitting undoes joining when no piece holds the separator. */
  lemma {:induction false} SplitJoin(parts: seq<string>, sep: char)
    requires |parts| >= 1
    requires forall i :: 0 <= i < |parts| ==> sep !in parts[i]
    ensures Split(Join(parts, sep), sep) == parts
    decreases |parts|
  {
    if |parts| == 1 {
      SplitWhole(parts[0], sep);
    } else {
      SplitJoin(parts[1..], sep);
      SplitPrefix(parts[0], sep, Join(parts[1..], sep));
      assert [parts[0]] + parts[1..] == parts;
    }
  }

  /** A command made of a literal head and two double-quoted arguments is
      those pieces joined by double quotes. */
  lemma QuotedIsJoin(head: string, first: string, second: string)
    ensures head + "\"" + first + "\" \"" + second + "\""
         == Join([head, first, " ", second, ""], '"')
  {
    var parts := [head, first, " ", second, ""];
    assert parts[1..] == [first, " ", second, ""];
    assert parts[1..][1..] == [" ", second, ""];
    assert parts[1..][1..][1..] == [second, ""];
    assert parts[1..][1..][1..][1..] == [""];
    assert Join([second, ""], '"') == second + "\"";
    assert Join([" ", second, ""], '"') == " \"" + second + "\"";
  }

  /** When neither argument holds a double quote, the quoted fields of the
      command are exactly the player and the message. */
  lemma ChatToPlayerFields(player: string, message: string)
    requires '"' !in player && '"' !in message
    ensures Split(ChatToPlayerCommand(player, message), '"')
         == ["serverchattoplayer ", player, " ", message, ""]
  {
    var parts := ["serverchattoplayer ", player, " ", message, ""];
    QuotedIsJoin(parts[0], player, message);
    assert ChatToPlayerCommand(player, message) == Join(parts, '"');
    assert '"' !in parts[0];
    assert forall i :: 0 <= i < |parts| ==> '"' !in parts[i];
    SplitJoin(parts, '"');
  }

  /** Quotes are not escaped: a player name holding a double quote reaches
      the reader cut short at that quote. */
  lemma ChatToPlayerQuoteCutsName(before: string, after: string, message: string)
    requires '"' !in before
    ensures var fields := Split(ChatToPlayerCommand(before + "\"" + after, message), '"');
      |fields| >= 2 && fields[1] == before
  {
    var head := "serverchattoplayer ";
    var rest := after + "\" \"" + message + "\"";
    assert ChatToPlayerCommand(before + "\"" + after, message)
        == head + ['"'] + (before + ['"'] + rest);
    SplitPrefix(head, '"', before + ['"'] + rest);
    SplitPrefix(before, '"', rest);
  }

  /** The same holds of the chat command addressed by Steam64 id. */
  lemma ChatToIdFields(steam64: string, message: string)
    requires '"' !in steam64 && '"' !in message
    ensures Split(ChatToIdCommand(steam64, message), '"')
         == ["serverchatto ", steam64, " ", message, ""]
  {
    var parts := ["serverchatto ", steam64, " ", message, ""];
    QuotedIsJoin(parts[0], steam64, message);
    assert ChatToIdCommand(steam64, message) == Join(parts, '"');
    assert '"' !in parts[0];
    assert forall i :: 0 <= i < |parts| ==> '"' !in parts[i];
    SplitJoin(parts, '"');
  }

  /** Distinct multipliers give distinct `slomo` commands. */
  lemma SlomoCommandInjective(m: int, n: int)
    requires SlomoCommand(m) == SlomoCommand(n)
    ensures m == n
  {
    assert DecimalString(m) == SlomoCommand(m)[6..];
    assert DecimalString(n) == SlomoCommand(n)[6..];
    DecimalStringInjective(m, n);
  }

  /** The confirmation texts of two commands on the same id, `<id>word`
      and `<id>other`, exclude each other when, at some position `p` of
      `other`, no place where `other` could start inside `word` holds the
      same letter: a reply confirming the one never confirms the other.
      Instances: ` Unbanned` and ` Banned`, ` Disallowed` and ` Allow`. */
  lemma ConfirmationExcludes(id: string, word: string, other: string, p: nat)
    requires p < |other| <= |word|
    requires other[p] !in word[p..|word| - |other| + p + 1]
    ensures !Contains(id + word, id + other)
  {
    var reply, exp := id + word, id + other;
    ContainsIff(reply, exp);
    forall k | 0 <= k <= |reply| - |exp|
      ensures !OccursAt(reply, exp, k)
    {
      assert word[p..|word| - |other| + p + 1][k] == word[k + p];
      assert exp[|id| + p] == other[p];
      assert reply[k + |id| + p] == word[k + p];
      assert reply[k..k + |exp|][|id| + p] == reply[k + |id| + p];
    }
  }
}

// How a reply is interpreted: the `Query` round trip with its "no response"
// sentinel, and the two pass/fail modes built on it — void mode
// (`emptyResponse`) and substring mode (`simpleResponse`). These functions
// are what the methods of both client classes are proved against.
module Replies {
  import opened GoStrings
  import opened Rcon

  /** The text the server sends when a command produced no output. */
  const NoResponse: string := "no response!!"

  /** What `Query` returns for a given behaviour of the channel. */
  function QueryResult(t: TransportResult): (r: (string, Err))
    ensures r.1 != FailResponse
    ensures r.1 == Nil <==> t.Replied? && !Contains(t.text, NoResponse)
    ensures r.1 == EmptyResponse <==> t.Replied? && Contains(t.text, NoResponse)
    ensures r.1.Transport? <==> !t.Replied?
    ensures r.1.Transport? ==> r.1.cause == t.cause
    ensures r.0 == if r.1 == Nil then t.text else ""
  {
    match t
    case WriteFailed(cause) => ("", Transport(cause))
    case ReadFailed(cause) => ("", Transport(cause))
    case Replied(text) =>
      if Contains(text, NoResponse) then ("", EmptyResponse) else (text, Nil)
  }

  /** Void mode: `emptyResponse` maps the `EmptyResponse` error of `Query` to
      success and passes every other error value on. */
  function VoidVerdict(t: TransportResult): (e: Err)
    ensures e == Nil <==> t.Replied?
    ensures e != Nil ==> e == Transport(t.cause)
  {
    var (_, err) := QueryResult(t);
    if err == EmptyResponse then Nil else err
  }

  /** Substring mode: `simpleResponse(cmd, exp)` succeeds when `Query`
      succeeded and its reply contains `exp`. */
  function SubstringVerdict(t: TransportResult, exp: string): (e: Err)
    ensures e == Nil <==>
      t.Replied? && !Contains(t.text, NoResponse) && Contains(t.text, exp)
    ensures e == FailResponse <==>
      t.Replied? && !Contains(t.text, NoResponse) && !Contains(t.text, exp)
    ensures e == EmptyResponse <==> t.Replied? && Contains(t.text, NoResponse)
    ensures e.Transport? <==> !t.Replied?
    ensures e.Transport? ==> e.cause == t.cause
  {
    var (resp, err) := QueryResult(t);
    if err != Nil then err
    else if !Contains(resp, exp) then FailResponse
    else Nil
  }

  /** Wherever the sentinel stands in a reply, `Query` reports
      `EmptyResponse` and drops the text. */
  lemma SentinelAnywhere(before: string, after: string)
    ensures QueryResult(Replied(before + NoResponse + after)) == ("", EmptyResponse)
  {
    ContainsInfix(before, NoResponse, after);
  }

  /** A reply holding the sentinel is a void-mode success whatever
      surrounds the sentinel, and an `EmptyResponse` in substring mode even
      when it also holds the expected text `exp`. */
  lemma VoidAcceptsSentinelAnywhere(before: string, exp: string, after: string)
    ensures Contains(before + exp + (NoResponse + after), exp)
    ensures VoidVerdict(Replied(before + exp + (NoResponse + after))) == Nil
    ensures SubstringVerdict(Replied(before + exp + (NoResponse + after)), exp) == EmptyResponse
  {
    ContainsInfix(before, exp, NoResponse + after);
    ContainsInfix(before + exp, NoResponse, after);
    assert before + exp + (NoResponse + after) == before + exp + NoResponse + after;
  }

  /** Substring mode is not anchored: the expected text may stand anywhere
      in a reply that lacks the sentinel. */
  lemma SubstringAnywhere(before: string, exp: string, after: string)
    requires !Contains(before + exp + after, NoResponse)
    ensures SubstringVerdict(Replied(before + exp + after), exp) == Nil
  {
    ContainsInfix(before, exp, after);
  }

  /** The two modes give the same verdict on a transport failure, and
      substring mode succeeds only where void mode does. */
  lemma SubstringRefinesVoid(t: TransportResult, exp: string)
    ensures !t.Replied? ==> SubstringVerdict(t, exp) == VoidVerdict(t)
    ensures SubstringVerdict(t, exp) == Nil ==> VoidVerdict(t) == Nil
  {
  }
}

/**
 * The polling control flow of main.go: check()'s status-fetch retry loop,
 * the decision flag it raises, and main()'s loop that polls until the
 * decision is released and then reports whether that was early or late.
 *
 * The network is an input. The server's answer to the k-th request of the
 * status page within one check() (k = 0, 1, ...) is replies(k); the effect
 * of login() on the server is part of those answers, so check() only
 * decides when login() is called. Go's panic/recover becomes the Fetch
 * value that ends the cycle.
 */
module Poller {
  import opened Wrappers
  import Extraction
  import Schedule

  /** One answer to a GET of the status page: an HTTP status code with the
      text of the page's status area, or a transport error. */
  datatype Reply = Response(code: int, statusArea: string) | TransportError

  predicate IsRedirect(r: Reply) { r.Response? && r.code == 302 }

  predicate IsOk(r: Reply) { r.Response? && r.code == 200 }

  /** How the retry loop of one check() ends: it breaks toward parsing the
      page fetched by request number index, or the cycle fails with
      "failed to log in", with an unhandled status code, or because the
      request itself failed. */
  datatype Fetch = ReachedParse(index: nat) | LoginExhausted | Unhandled(code: int) | RequestFailed

  /** The initial value of the retry counter. */
  const Retries: nat := 3

  /** Request k is the first whose answer is not a redirect. */
  predicate FirstNonRedirect(replies: nat -> Reply, k: nat) {
    !IsRedirect(replies(k)) && forall j :: 0 <= j < k ==> IsRedirect(replies(j))
  }

  /** Number of leading redirects from request n on, stopping at Retries. */
  function LoginsFrom(replies: nat -> Reply, n: nat): (m: nat)
    requires n <= Retries
    ensures n <= m <= Retries
    ensures forall j :: n <= j < m ==> IsRedirect(replies(j))
    ensures m < Retries ==> !IsRedirect(replies(m))
    decreases Retries - n
  {
    if n == Retries || !IsRedirect(replies(n)) then n else LoginsFrom(replies, n + 1)
  }

  /** The number of login() calls in one check(): one per redirect among
      the first Retries answers, up to the first answer that is not one. */
  function Logins(replies: nat -> Reply): (m: nat)
    ensures m <= Retries
    ensures forall j :: 0 <= j < m ==> IsRedirect(replies(j))
    ensures m < Retries ==> !IsRedirect(replies(m))
  {
    LoginsFrom(replies, 0)
  }

  /** What a single answer does to the loop when it ends it: only a 200
      goes on to parsing, a 302 here means the logins are used up, and any
      other status is reported as unhandled with its code. */
  function Settle(r: Reply, k: nat): (f: Fetch)
    ensures f.ReachedParse? <==> IsOk(r)
    ensures f.ReachedParse? ==> f.index == k
    ensures f == LoginExhausted <==> IsRedirect(r)
    ensures f == RequestFailed <==> r.TransportError?
    ensures f.Unhandled? <==> r.Response? && r.code != 200 && r.code != 302
    ensures f.Unhandled? ==> f.code == r.code
  {
    match r
    case TransportError => RequestFailed
    case Response(code, _) =>
      if code == 200 then ReachedParse(k)
      else if code == 302 then LoginExhausted
      else Unhandled(code)
  }

  /**
   * The outcome of the retry loop: the first answer that is not a redirect
   * decides it, provided it comes within Retries + 1 requests; four
   * redirects in a row exhaust the logins; parsing is reached only on a 200.
   */
  function FetchOutcome(replies: nat -> Reply): (f: Fetch)
    ensures forall k: nat :: k <= Retries && FirstNonRedirect(replies, k) ==> f == Settle(replies(k), k)
    ensures f == LoginExhausted <==> forall j :: 0 <= j <= Retries ==> IsRedirect(replies(j))
    ensures f.ReachedParse? ==> f.index <= Retries && IsOk(replies(f.index))
  {
    var m := Logins(replies);
    assert forall k: nat :: k <= Retries && FirstNonRedirect(replies, k) ==> k == m;
    Settle(replies(m), m)
  }

  /** LoginsFrom reads no answer past request Retries. */
  lemma {:induction false} LoginsFromPrefix(r1: nat -> Reply, r2: nat -> Reply, n: nat)
    requires n <= Retries
    requires forall j :: n <= j <= Retries ==> r1(j) == r2(j)
    ensures LoginsFrom(r1, n) == LoginsFrom(r2, n)
    decreases Retries - n
  {
    if n < Retries {
      LoginsFromPrefix(r1, r2, n + 1);
    }
  }

  /** Within one check() the status page is requested at most Retries + 1
      times: answers to later requests never influence the cycle. */
  lemma OnlyFirstRepliesMatter(r1: nat -> Reply, r2: nat -> Reply)
    requires forall j :: 0 <= j <= Retries ==> r1(j) == r2(j)
    ensures Logins(r1) == Logins(r2) && FetchOutcome(r1) == FetchOutcome(r2)
  {
    LoginsFromPrefix(r1, r2, 0);
  }

  /** Two redirects followed by a 200: two logins, then parsing the third page. */
  lemma TwoRedirectsThenOk(replies: nat -> Reply)
    requires IsRedirect(replies(0)) && IsRedirect(replies(1)) && IsOk(replies(2))
    ensures Logins(replies) == 2 && FetchOutcome(replies) == ReachedParse(2)
  {
    assert FirstNonRedirect(replies, 2);
  }

  /** A session that is still valid: no login, parse the first page. */
  lemma OkWithoutLogin(replies: nat -> Reply)
    requires IsOk(replies(0))
    ensures Logins(replies) == 0 && FetchOutcome(replies) == ReachedParse(0)
  {
    assert FirstNonRedirect(replies, 0);
  }

  /** Any status other than 200 or 302 ends the cycle at once, without login. */
  lemma UnhandledStatusFails(replies: nat -> Reply, code: int, text: string)
    requires replies(0) == Response(code, text) && code != 200 && code != 302
    ensures Logins(replies) == 0 && FetchOutcome(replies) == Unhandled(code)
  {
    assert FirstNonRedirect(replies, 0);
  }

  /** Four redirects in a row: three logins and "failed to log in"; the
      fourth redirect triggers no login. */
  lemma RedirectsExhaustLogins(replies: nat -> Reply)
    requires forall j :: 0 <= j <= Retries ==> IsRedirect(replies(j))
    ensures Logins(replies) == Retries && FetchOutcome(replies) == LoginExhausted
  {
  }

  /**
   * check()'s loop: request the status page; on 200 go on to parse, on 302
   * log in and retry while the counter is at least 1, otherwise fail.
   * requests counts the GETs of the status page, logins the login() calls.
   */
  method FetchStatus(replies: nat -> Reply) returns (f: Fetch, requests: nat, logins: nat)
    ensures f == FetchOutcome(replies) && logins == Logins(replies)
    ensures requests == logins + 1 && requests <= Retries + 1
  {
    var retries: int := Retries;
    requests, logins := 0, 0;
    f := RequestFailed;
    while retries >= 0
      invariant 0 <= retries <= Retries
      invariant requests == logins == Retries - retries
      invariant forall j :: 0 <= j < requests ==> IsRedirect(replies(j))
      decreases retries
    {
      var r := replies(requests);
      requests := requests + 1;
      match r {
        case TransportError =>
          f := RequestFailed;
          return;
        case Response(code, _) =>
          match code {
            case 302 =>
              if retries < 1 {
                f := LoginExhausted;
                return;
              }
              logins := logins + 1;
            case 200 =>
              f := ReachedParse(requests - 1);
              break;
            case _ =>
              f := Unhandled(code);
              return;
          }
      }
      retries := retries - 1;
    }
  }

  /** The decision one check() finds: the extracted word of the page that
      ended the retry loop with a 200, if any. */
  function Decision(replies: nat -> Reply): (r: Option<string>)
    ensures r.Some? ==> FetchOutcome(replies).ReachedParse?
  {
    match FetchOutcome(replies)
    case ReachedParse(i) => Extraction.Extract(replies(i).statusArea)
    case _ => None
  }

  /** A decision is found exactly when the first answer that is not a
      redirect comes within Retries + 1 requests, is a 200, and its status
      text matches; the decision is then the word extracted from that text. */
  lemma DecisionFromFirstOkPage(replies: nat -> Reply)
    ensures Decision(replies).Some? ==>
      exists k: nat :: k <= Retries && FirstNonRedirect(replies, k) && IsOk(replies(k)) &&
                       Extraction.Extract(replies(k).statusArea) == Decision(replies)
    ensures forall k: nat :: k <= Retries && FirstNonRedirect(replies, k) && IsOk(replies(k)) ==>
                             Decision(replies) == Extraction.Extract(replies(k).statusArea)
  {
  }

  /** The index of the first round whose check() finds the decision, or the
      number of rounds when none does. */
  function FirstRelease(rounds: seq<Round>): (n: nat)
    ensures n <= |rounds|
    ensures forall j :: 0 <= j < n ==> Decision(rounds[j].replies).None?
    ensures n < |rounds| ==> Decision(rounds[n].replies).Some?
  {
    if rounds == [] then 0
    else if Decision(rounds[0].replies).Some? then 0
    else 1 + FirstRelease(rounds[1..])
  }

  /** One iteration of main()'s loop as seen from outside: the server's
      answers during its check() and the clock reading right after it. */
  datatype Round = Round(replies: nat -> Reply, clock: int)

  class Poller {
    /** Set once a decision has been seen; main() polls until it is. */
    var decisionReleased: bool

    constructor ()
      ensures !decisionReleased
    {
      decisionReleased := false;
    }

    /**
     * check(): fetch the status page (logging in as needed) and extract
     * the decision. The flag only ever moves from false to true, and only
     * when a decision is found; on every failure nothing changes.
     */
    method Check(replies: nat -> Reply) returns (result: Option<string>, logins: nat)
      modifies this
      ensures result == Decision(replies) && logins == Logins(replies)
      ensures decisionReleased == (old(decisionReleased) || result.Some?)
    {
      var f, requests;
      f, requests, logins := FetchStatus(replies);
      result := None;
      if f.ReachedParse? {
        result := Extraction.Extract(replies(f.index).statusArea);
        if result.Some? {
          decisionReleased := true;
        }
      }
    }

    /**
     * main()'s loop over the given rounds: wake, check, compute the next
     * wake time from the clock, until the decision is released; then the
     * verdict on the final clock reading. wakes lists every value nextTime
     * takes. With no release among the rounds the verdict is None: the
     * program would still be polling.
     */
    method Watch(rounds: seq<Round>, finish: int) returns (wakes: seq<int>, verdict: Option<Schedule.Timeliness>)
      modifies this
      ensures decisionReleased == (old(decisionReleased) || FirstRelease(rounds) < |rounds|)
      ensures |wakes| == 1 + (if old(decisionReleased) then 0
                              else if FirstRelease(rounds) < |rounds| then FirstRelease(rounds) + 1
                              else |rounds|)
      ensures wakes[0] == Schedule.FirstWake
      ensures forall j :: 0 <= j < |wakes| - 1 ==> wakes[j + 1] == Schedule.NextWake(rounds[j].clock, Schedule.Doomsday)
      ensures verdict == if decisionReleased then Some(Schedule.Verdict(Schedule.Doomsday, finish)) else None
    {
      var nextTime := Schedule.FirstWake;
      wakes := [nextTime];
      var i := 0;
      while !decisionReleased && i < |rounds|
        invariant 0 <= i <= |rounds|
        invariant |wakes| == i + 1 && wakes[0] == Schedule.FirstWake
        invariant forall j :: 0 <= j < i ==> wakes[j + 1] == Schedule.NextWake(rounds[j].clock, Schedule.Doomsday)
        invariant old(decisionReleased) ==> i == 0 && decisionReleased
        invariant !old(decisionReleased) ==> i <= FirstRelease(rounds) + 1
        invariant !old(decisionReleased) ==> decisionReleased == (0 < i && i - 1 == FirstRelease(rounds))
        decreases |rounds| - i
      {
        var _, _ := Check(rounds[i].replies);
        nextTime := Schedule.NextWake(rounds[i].clock, Schedule.Doomsday);
        wakes := wakes + [nextTime];
        i := i + 1;
      }
      verdict := if decisionReleased then Some(Schedule.Verdict(Schedule.Doomsday, finish)) else None;
    }
  }
}

/** The deterministic parts of the client: the fixture result used in
    development, the message of the error each call throws, the query of the
    history call, and how each call settles given the server's reply. */
module Api {
  import opened Wrappers
  import opened Seqs
  import opened Text
  import opened Types

  // ---------------------------------------------------------------------------
  // Integer division facts for the bucket sizes
  // ---------------------------------------------------------------------------

  lemma MulSign(x: int, k: int)
    requires k >= 0
    ensures x >= 1 ==> x * k >= k
    ensures x <= -1 ==> x * k <= -k
  {
  }

  /** Quotient and remainder are determined by `a == q * k + r` with `0 <= r < k`. */
  lemma DivUnique(a: int, k: int, q: int, r: int)
    requires k > 0 && a == q * k + r && 0 <= r < k
    ensures a / k == q && a % k == r
  {
    var d, m := a / k, a % k;
    assert (d - q) * k == r - m;
    MulSign(d - q, k);
  }

  /** How `ceil(n / k)` grows when index `n` is added. */
  lemma CeilStep(n: nat, k: nat)
    requires k > 0
    ensures n % k == 0 ==> (n + k) / k == (n + k - 1) / k + 1 && ((n + k - 1) / k) * k == n
    ensures n % k != 0 ==> (n + k) / k == (n + k - 1) / k
  {
    var q, r := n / k, n % k;
    DivUnique(n + k, k, q + 1, r);
    if r == 0 {
      DivUnique(n + k - 1, k, q, k - 1);
    } else {
      DivUnique(n + k - 1, k, q + 1, r - 1);
    }
  }

  // ---------------------------------------------------------------------------
  // mockValidationResult
  // ---------------------------------------------------------------------------

  /** The callback `(_, i) => i % k === 0`. */
  function AtMultiplesOf(k: nat): (string, nat) -> bool
    requires k > 0
  {
    (e: string, i: nat) => i % k == 0
  }

  /** `emails.filter((_, i) => i % k === 0)`. */
  function IndexMultiples(emails: seq<string>, k: nat): seq<string>
    requires k > 0
  {
    Filter(emails, AtMultiplesOf(k))
  }

  /** The filter keeps exactly the elements at indices 0, k, 2k, ..., in order:
      `ceil(n / k)` of them. */
  lemma {:induction false} IndexMultiplesClosed(emails: seq<string>, k: nat)
    requires k > 0
    ensures |IndexMultiples(emails, k)| == (|emails| + k - 1) / k
    ensures forall j :: 0 <= j < |IndexMultiples(emails, k)| ==>
      j * k < |emails| && IndexMultiples(emails, k)[j] == emails[j * k]
    decreases |emails|
  {
    if emails != [] {
      var n := |emails| - 1;
      var front := IndexMultiples(emails[..n], k);
      IndexMultiplesClosed(emails[..n], k);
      CeilStep(n, k);
      if n % k == 0 {
        assert IndexMultiples(emails, k) == front + [emails[n]];
        assert |front| * k == n;
      } else {
        assert IndexMultiples(emails, k) == front;
      }
    }
  }

  /** An element is in the bucket exactly when it sits at some multiple of `k`. */
  lemma IndexMultiplesMembers(emails: seq<string>, k: nat)
    requires k > 0
    ensures forall x :: x in IndexMultiples(emails, k) <==>
      exists i :: 0 <= i < |emails| && emails[i] == x && i % k == 0
  {
    FilterMembers(emails, AtMultiplesOf(k));
  }

  /** The fixture a development build returns for a list: `id` and `date` stand
      for the random id and the current time. */
  function MockValidationResult(emails: seq<string>, id: string, date: int): ValidationResult {
    ValidationResult(
      id, date, Some("upload.csv"), |emails|,
      IndexMultiples(emails, 2), IndexMultiples(emails, 3), IndexMultiples(emails, 5),
      IndexMultiples(emails, 7), IndexMultiples(emails, 11),
      |emails|, Completed)
  }

  /** The fixture charges one credit per address, reports them all, and fills each
      bucket with the addresses at the multiples of its modulus: the valid bucket
      holds the even positions, `ceil(n / 2)` of them. Every bucket keeps input order. */
  lemma MockResultSpec(emails: seq<string>, id: string, date: int)
    ensures var r := MockValidationResult(emails, id, date);
      r.totalEmails == r.creditsUsed == |emails| && r.status == Completed &&
      r.fileName == Some("upload.csv")
    ensures var r := MockValidationResult(emails, id, date);
      |r.valid| == (|emails| + 1) / 2 && |r.invalid| == (|emails| + 2) / 3 &&
      |r.risky| == (|emails| + 4) / 5 && |r.disposable| == (|emails| + 6) / 7 &&
      |r.spamTraps| == (|emails| + 10) / 11
    ensures var r := MockValidationResult(emails, id, date);
      forall j :: 0 <= j < |r.valid| ==> r.valid[j] == emails[2 * j]
    ensures var r := MockValidationResult(emails, id, date);
      IsSubsequence(r.valid, emails) && IsSubsequence(r.invalid, emails) &&
      IsSubsequence(r.risky, emails) && IsSubsequence(r.disposable, emails) &&
      IsSubsequence(r.spamTraps, emails)
  {
    FilterIsSubsequence(emails, AtMultiplesOf(2));
    FilterIsSubsequence(emails, AtMultiplesOf(3));
    FilterIsSubsequence(emails, AtMultiplesOf(5));
    FilterIsSubsequence(emails, AtMultiplesOf(7));
    FilterIsSubsequence(emails, AtMultiplesOf(11));
    IndexMultiplesClosed(emails, 2);
    IndexMultiplesClosed(emails, 3);
    IndexMultiplesClosed(emails, 5);
    IndexMultiplesClosed(emails, 7);
    IndexMultiplesClosed(emails, 11);
  }

  /** The buckets overlap: the first address lands in all five, so for any
      non-empty list the bucket sizes add up to more than the total. */
  lemma MockBucketsOverlap(emails: seq<string>, id: string, date: int)
    requires emails != []
    ensures var r := MockValidationResult(emails, id, date);
      emails[0] in r.valid && emails[0] in r.invalid && emails[0] in r.risky &&
      emails[0] in r.disposable && emails[0] in r.spamTraps
    ensures var r := MockValidationResult(emails, id, date);
      |r.valid| + |r.invalid| + |r.risky| + |r.disposable| + |r.spamTraps| > r.totalEmails
  {
    var r := MockValidationResult(emails, id, date);
    MockResultSpec(emails, id, date);
    IndexMultiplesClosed(emails, 2);
    IndexMultiplesClosed(emails, 3);
    IndexMultiplesClosed(emails, 5);
    IndexMultiplesClosed(emails, 7);
    IndexMultiplesClosed(emails, 11);
    assert r.valid[0] == emails[0] && r.invalid[0] == emails[0] && r.risky[0] == emails[0];
    assert r.disposable[0] == emails[0] && r.spamTraps[0] == emails[0];
  }

  /** The fixture for a single address (validateSingleEmail): one address, one
      credit, and the address in every bucket. */
  lemma SingleMock(email: string, id: string, date: int)
    ensures var r := MockValidationResult([email], id, date);
      r.totalEmails == 1 && r.creditsUsed == 1 &&
      r.valid == [email] && r.invalid == [email] && r.risky == [email] &&
      r.disposable == [email] && r.spamTraps == [email]
  {
    IndexMultiplesClosed([email], 2);
    IndexMultiplesClosed([email], 3);
    IndexMultiplesClosed([email], 5);
    IndexMultiplesClosed([email], 7);
    IndexMultiplesClosed([email], 11);
  }

  /** The fixture for no address at all: every count is 0 and every bucket empty. */
  lemma EmptyMock(id: string, date: int)
    ensures var r := MockValidationResult([], id, date);
      r.totalEmails == 0 && r.creditsUsed == 0 && r.status == Completed &&
      r.valid == [] && r.invalid == [] && r.risky == [] && r.disposable == [] && r.spamTraps == []
  {
    MockResultSpec([], id, date);
  }

  // ---------------------------------------------------------------------------
  // Error messages: `new Error(error.message || fallback)`
  // ---------------------------------------------------------------------------

  /** The calls of the client. */
  datatype Endpoint = ValidateBulk | ValidateSingle | PurchaseCredits | GetUserCredits | GetHistory

  /** The message each call falls back to when the server gives none. */
  function Fallback(e: Endpoint): string {
    match e
    case ValidateBulk => "Validation failed"
    case ValidateSingle => "Validation failed"
    case PurchaseCredits => "Purchase failed"
    case GetUserCredits => "Failed to fetch credits"
    case GetHistory => "Failed to fetch history"
  }

  /** `error.message || fallback` for a `message` that is a string or absent. */
  function FailureMessage(message: Option<string>, fallback: string): string {
    if message.Some? && message.value != "" then message.value else fallback
  }

  /** The message of the error a call throws on a reply that is not ok. */
  function ErrorMessage(e: Endpoint, message: Option<string>): string {
    FailureMessage(message, Fallback(e))
  }

  /** The server's message is used exactly when it is a non-empty string; otherwise
      the call's own fallback is. So the message is never empty. */
  lemma ErrorMessageSpec(e: Endpoint, message: Option<string>)
    ensures ErrorMessage(e, message) == Fallback(e) <==>
      (message.None? || message.value == "" || message.value == Fallback(e))
    ensures message.Some? && message.value != "" ==> ErrorMessage(e, message) == message.value
    ensures ErrorMessage(e, message) != ""
  {
  }

  /** Only the two validation calls share a fallback. */
  lemma FallbacksDistinct(e1: Endpoint, e2: Endpoint)
    ensures Fallback(e1) == Fallback(e2) <==>
      e1 == e2 || ((e1.ValidateBulk? || e1.ValidateSingle?) && (e2.ValidateBulk? || e2.ValidateSingle?))
  {
  }

  // ---------------------------------------------------------------------------
  // The history query: new URLSearchParams({ page: page.toString(), ...filters })
  // ---------------------------------------------------------------------------

  /** A plain object with string values, as its entries in key order. */
  type Params = seq<(string, string)>

  ghost predicate DistinctKeys(p: Params) {
    forall i, j :: 0 <= i < j < |p| ==> p[i].0 != p[j].0
  }

  /** The value under `key`, if any. */
  function Lookup(p: Params, key: string): (v: Option<string>)
    ensures v.Some? <==> exists i :: 0 <= i < |p| && p[i].0 == key
    ensures v.Some? ==> exists i :: 0 <= i < |p| && p[i] == (key, v.value)
  {
    if p == [] then None
    else if p[0].0 == key then Some(p[0].1)
    else Lookup(p[1..], key)
  }

  /** `obj[key] = value`: an existing key keeps its place, a new one goes last. */
  function Put(p: Params, key: string, value: string): Params {
    if p == [] then [(key, value)]
    else if p[0].0 == key then [(key, value)] + p[1..]
    else [p[0]] + Put(p[1..], key, value)
  }

  /** Putting a key sets it, leaves every other key alone, keeps the first key
      first, and adds an entry only for a key that was not there. */
  lemma {:induction false} PutLookup(p: Params, key: string, value: string)
    ensures Lookup(Put(p, key, value), key) == Some(value)
    ensures forall k :: k != key ==> Lookup(Put(p, key, value), k) == Lookup(p, k)
    ensures p != [] ==> Put(p, key, value)[0].0 == p[0].0
    ensures |Put(p, key, value)| == |p| + (if Lookup(p, key).Some? then 0 else 1)
    decreases |p|
  {
    if p != [] && p[0].0 != key {
      PutLookup(p[1..], key, value);
    } else if p != [] {
      assert forall k :: k != key ==> Lookup(p, k) == Lookup(p[1..], k);
    }
  }

  /** With distinct keys the first key does not come back in the rest. */
  lemma LookupTailOfHead(p: Params)
    requires DistinctKeys(p) && p != []
    ensures Lookup(p[1..], p[0].0).None?
  {
    forall i | 0 <= i < |p| - 1 ensures p[1..][i].0 != p[0].0 {
      assert p[1..][i] == p[i + 1];
    }
  }

  /** An entry whose key is absent from the rest can go in front. */
  lemma ConsDistinct(x: (string, string), rest: Params)
    requires DistinctKeys(rest) && Lookup(rest, x.0).None?
    ensures DistinctKeys([x] + rest)
  {
    var q := [x] + rest;
    forall i, j | 0 <= i < j < |q| ensures q[i].0 != q[j].0 {
      assert q[j] == rest[j - 1];
      if i > 0 {
        assert q[i] == rest[i - 1];
      }
    }
  }

  /** Putting a key keeps the keys distinct. */
  lemma {:induction false} PutDistinct(p: Params, key: string, value: string)
    requires DistinctKeys(p)
    ensures DistinctKeys(Put(p, key, value))
    decreases |p|
  {
    if p != [] {
      LookupTailOfHead(p);
      assert DistinctKeys(p[1..]) by {
        forall i, j | 0 <= i < j < |p| - 1 ensures p[1..][i].0 != p[1..][j].0 {
          assert p[1..][i] == p[i + 1] && p[1..][j] == p[j + 1];
        }
      }
      if p[0].0 == key {
        ConsDistinct((key, value), p[1..]);
      } else {
        PutDistinct(p[1..], key, value);
        PutLookup(p[1..], key, value);
        ConsDistinct(p[0], Put(p[1..], key, value));
      }
    }
  }

  /** `{ ...obj, ...src }`: the entries of `src` put into `obj` one by one. */
  function Assign(obj: Params, src: Params): Params
    decreases |src|
  {
    if src == [] then obj else Assign(Put(obj, src[0].0, src[0].1), src[1..])
  }

  /** After the spread a key has the value from `src` when `src` has it, and its
      value from `obj` otherwise; the first key stays first. */
  lemma {:induction false} AssignSpec(obj: Params, src: Params)
    requires DistinctKeys(obj) && DistinctKeys(src)
    ensures forall k ::
              Lookup(Assign(obj, src), k) ==
              (if Lookup(src, k).Some? then Lookup(src, k) else Lookup(obj, k))
    ensures obj != [] ==> Assign(obj, src) != [] && Assign(obj, src)[0].0 == obj[0].0
    ensures DistinctKeys(Assign(obj, src))
    decreases |src|
  {
    if src != [] {
      var (k0, v0) := src[0];
      var next := Put(obj, k0, v0);
      PutLookup(obj, k0, v0);
      PutDistinct(obj, k0, v0);
      AssignSpec(next, src[1..]);
      forall k ensures Lookup(Assign(obj, src), k) ==
        if Lookup(src, k).Some? then Lookup(src, k) else Lookup(obj, k)
      {
        if k == k0 {
          LookupTailOfHead(src);
        }
      }
    }
  }

  /** The page getValidationHistory works with: the argument, or 1 when it is not passed. */
  function PageOrDefault(page: Option<int>): int {
    if page.Some? then page.value else 1
  }

  /** The query of getValidationHistory; `page` and `filters` are None when not passed. */
  function HistoryQuery(page: Option<int>, filters: Option<Params>): Params {
    Assign([("page", IntToDecimal(PageOrDefault(page)))], if filters.Some? then filters.value else [])
  }

  /** `page` comes first; its value is the page number in decimal, "1" when no page
      is passed, unless the filters carry a 'page' key, whose value then wins; every
      other key is the filters'. */
  lemma HistoryQuerySpec(page: Option<int>, filters: Option<Params>)
    requires filters.Some? ==> DistinctKeys(filters.value)
    ensures var q := HistoryQuery(page, filters);
      q != [] && q[0].0 == "page" && DistinctKeys(q)
    ensures var q := HistoryQuery(page, filters);
      var src := if filters.Some? then filters.value else [];
      Lookup(q, "page") == (if Lookup(src, "page").Some? then Lookup(src, "page")
                            else if page.Some? then Some(IntToDecimal(page.value))
                            else Some("1"))
    ensures var q := HistoryQuery(page, filters);
      var src := if filters.Some? then filters.value else [];
      forall k :: k != "page" ==> Lookup(q, k) == Lookup(src, k)
  {
    var src := if filters.Some? then filters.value else [];
    AssignSpec([("page", IntToDecimal(PageOrDefault(page)))], src);
  }

  /** Without a 'page' filter the server reads back the page number it was given,
      and 1 when none was given. */
  lemma HistoryQueryPageReadsBack(page: Option<int>, filters: Option<Params>)
    requires filters.Some? ==> DistinctKeys(filters.value) && Lookup(filters.value, "page").None?
    ensures Lookup(HistoryQuery(page, filters), "page").Some?
    ensures ParseDecimal(Lookup(HistoryQuery(page, filters), "page").value) ==
      Some(if page.Some? then page.value else 1)
  {
    HistoryQuerySpec(page, filters);
    DecimalRoundTrip(PageOrDefault(page));
  }

  // ---------------------------------------------------------------------------
  // The history fixture
  // ---------------------------------------------------------------------------

  datatype History = History(results: seq<ValidationResult>, total: int, pages: int)

  /** Ten fixtures for 'test@example.com', a total of 100 and 10 pages. Each element
      is built by its own call, so the i-th has its own id `idOf(i)` and its own
      instant `dateOf(i)`. */
  function MockHistory(idOf: nat -> string, dateOf: nat -> int): History {
    History(seq(10, i requires 0 <= i < 10 => MockValidationResult(["test@example.com"], idOf(i), dateOf(i))),
            100, 10)
  }

  /** The history fixture holds exactly ten single-address results, each with the
      address in every bucket and its own id and instant, under a total of 100
      over 10 pages. */
  lemma MockHistorySpec(idOf: nat -> string, dateOf: nat -> int)
    ensures var h := MockHistory(idOf, dateOf);
      |h.results| == 10 && h.total == 100 && h.pages == 10
    ensures var h := MockHistory(idOf, dateOf);
      forall i :: 0 <= i < |h.results| ==>
        h.results[i].id == idOf(i) && h.results[i].date == dateOf(i) &&
        h.results[i].totalEmails == 1 && h.results[i].valid == ["test@example.com"] &&
        h.results[i].spamTraps == ["test@example.com"]
  {
    forall i | 0 <= i < 10 {
      SingleMock("test@example.com", idOf(i), dateOf(i));
    }
  }

  // ---------------------------------------------------------------------------
  // How each call settles
  // ---------------------------------------------------------------------------

  /** What the network gives a call: a reply with an ok status and its body; a
      reply that is not ok, with the `message` field of its body (None when the body
      is an object without one, or a string, number or array); a reply that is not
      ok whose body is JSON `null`; or a rejection of the request itself, with its
      own message. */
  datatype Reply<T> = Ok(body: T) | NotOk(message: Option<string>) | NotOkNullBody | Rejected(reason: string)

  /** What a failing call throws: an Error with a message, or the TypeError that
      reading `message` off a `null` body raises. */
  datatype Thrown = Error(message: string) | TypeErrorOnNull

  /** A reply that is not ok becomes the call's error, unless reading its body's
      `message` throws first; a rejection is rethrown as is. */
  function Settle<T>(e: Endpoint, reply: Reply<T>): Result<T, Thrown> {
    match reply
    case Ok(body) => Success(body)
    case NotOk(message) => Failure(Error(ErrorMessage(e, message)))
    case NotOkNullBody => Failure(TypeErrorOnNull)
    case Rejected(reason) => Failure(Error(reason))
  }

  /** validateEmails: the fixture in development, the server's result otherwise. */
  function ValidateEmails(development: bool, emails: seq<string>, id: string, date: int,
                          reply: Reply<ValidationResult>): Result<ValidationResult, Thrown>
  {
    if development then Success(MockValidationResult(emails, id, date))
    else Settle(ValidateBulk, reply)
  }

  /** validateSingleEmail: the fixture for `[email]` in development. */
  function ValidateSingleEmail(development: bool, email: string, id: string, date: int,
                               reply: Reply<ValidationResult>): Result<ValidationResult, Thrown>
  {
    if development then Success(MockValidationResult([email], id, date))
    else Settle(ValidateSingle, reply)
  }

  /** purchaseCredits has no development branch: it always goes to the server. */
  function PurchaseCreditsCall(reply: Reply<()>): Result<(), Thrown> {
    Settle(PurchaseCredits, reply)
  }

  /** getUserCredits: 1000 in development, the body's `credits` otherwise. */
  function GetUserCreditsCall(development: bool, reply: Reply<int>): Result<int, Thrown> {
    if development then Success(1000) else Settle(GetUserCredits, reply)
  }

  /** What getValidationHistory does: the query string of the request it sends,
      None when it sends none, and how it settles. */
  datatype HistoryCall = HistoryCall(request: Option<Params>, outcome: Result<History, Thrown>)

  /** getValidationHistory: the fixture in development, without a request;
      otherwise a request carrying HistoryQuery(page, filters), settled by the reply. */
  function GetValidationHistory(development: bool, page: Option<int>, filters: Option<Params>,
                                idOf: nat -> string, dateOf: nat -> int,
                                reply: Reply<History>): HistoryCall
  {
    if development then HistoryCall(None, Success(MockHistory(idOf, dateOf)))
    else HistoryCall(Some(HistoryQuery(page, filters)), Settle(GetHistory, reply))
  }

  /** Outside development the history call sends a query that starts with 'page'
      and, without a 'page' filter, reads back as the page asked for (1 by
      default); the call succeeds exactly on an ok reply. */
  lemma HistoryCallSpec(development: bool, page: Option<int>, filters: Option<Params>,
                        idOf: nat -> string, dateOf: nat -> int, reply: Reply<History>)
    requires filters.Some? ==> DistinctKeys(filters.value)
    ensures var c := GetValidationHistory(development, page, filters, idOf, dateOf, reply);
      c.request.Some? <==> !development
    ensures var c := GetValidationHistory(development, page, filters, idOf, dateOf, reply);
      !development ==> c.request.value != [] && c.request.value[0].0 == "page" &&
                       (c.outcome.Success? <==> reply.Ok?)
    ensures var c := GetValidationHistory(development, page, filters, idOf, dateOf, reply);
      !development && (filters.Some? ==> Lookup(filters.value, "page").None?) ==>
        Lookup(c.request.value, "page").Some? &&
        ParseDecimal(Lookup(c.request.value, "page").value) == Some(PageOrDefault(page))
  {
    if !development {
      HistoryQuerySpec(page, filters);
      SettleSpec(GetHistory, reply);
      if filters.Some? ==> Lookup(filters.value, "page").None? {
        HistoryQueryPageReadsBack(page, filters);
      }
    }
  }

  /** A call fails exactly when its reply is not ok or was rejected. A reply that
      is not ok throws an Error with a non-empty message, or the TypeError when its
      body is `null`; a rejection is rethrown with its own message. */
  lemma SettleSpec<T>(e: Endpoint, reply: Reply<T>)
    ensures Settle(e, reply).Success? <==> reply.Ok?
    ensures reply.Ok? ==> Settle(e, reply).value == reply.body
    ensures reply.NotOk? ==> Settle(e, reply).error.Error? && Settle(e, reply).error.message != ""
    ensures Settle(e, reply).Failure? && Settle(e, reply).error.TypeErrorOnNull? <==> reply.NotOkNullBody?
    ensures reply.Rejected? ==> Settle(e, reply).error == Error(reply.reason)
  {
    if reply.NotOk? {
      ErrorMessageSpec(e, reply.message);
    }
  }

  /** In development the validation calls, the balance and the history never fail,
      whatever the network would have done. */
  lemma DevelopmentNeverFails(emails: seq<string>, email: string, id: string, date: int,
                              page: Option<int>, filters: Option<Params>,
                              idOf: nat -> string, dateOf: nat -> int, r1: Reply<ValidationResult>,
                              r2: Reply<int>, r3: Reply<History>)
    ensures ValidateEmails(true, emails, id, date, r1) == Success(MockValidationResult(emails, id, date))
    ensures ValidateSingleEmail(true, email, id, date, r1) == ValidateEmails(true, [email], id, date, r1)
    ensures GetUserCreditsCall(true, r2) == Success(1000)
    ensures GetValidationHistory(true, page, filters, idOf, dateOf, r3) ==
      HistoryCall(None, Success(MockHistory(idOf, dateOf)))
  {
  }
}

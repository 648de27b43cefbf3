/**
 The `/updateRepository` handler of app.js: the repository a push notification names is
 looked up case-insensitively in the allow-list; a match is pulled and the site rebuilt,
 anything else is refused with status 500.
 */
module Webhook {
  import opened Options
  import opened FileSystems
  import opened Build

  /** `String.prototype.toLowerCase` on one character, for the ASCII letters. */
  function LowerChar(c: char): char {
    if 'A' <= c <= 'Z' then (c as int + ('a' as int - 'A' as int)) as char else c
  }

  predicate IsUpper(c: char) {
    'A' <= c <= 'Z'
  }

  /** `toLowerCase` with ASCII case mapping. */
  function Lower(s: string): (r: string)
    ensures |r| == |s|
    ensures forall k | 0 <= k < |s| :: !IsUpper(r[k])
  {
    seq(|s|, k requires 0 <= k < |s| => LowerChar(s[k]))
  }

  /** Lower-casing twice is lower-casing once. */
  lemma LowerIdempotent(s: string)
    ensures Lower(Lower(s)) == Lower(s)
  {
    var l := Lower(s);
    forall k | 0 <= k < |s|
      ensures Lower(l)[k] == l[k]
    {
      assert !IsUpper(l[k]);
    }
  }

  /** A string is its own lower case exactly when it has no upper-case letter. */
  lemma LowerFixesLowercase(s: string)
    ensures Lower(s) == s <==> forall k | 0 <= k < |s| :: !IsUpper(s[k])
  {
    if forall k | 0 <= k < |s| :: !IsUpper(s[k]) {
      assert forall k | 0 <= k < |s| :: Lower(s)[k] == s[k];
    }
  }

  /** The `url` query parameter, if the request has one. */
  datatype Query = Absent | Present(raw: string)

  /** `decodeURIComponent`: the decoded text, or `None` where it throws a `URIError`. */
  type Decoder = string -> Option<string>

  const UsageMessage := "You have to provide a query string parameter called 'url' with the GitHub clone url for the repo"

  function NotAllowedMessage(incoming: string): string {
    "Repository " + incoming + " is not allowed"
  }

  const Refused := 500

  datatype Response =
    | Pulled(key: string, workingCopy: Path)  // pull from origin master, then hugo
    | Rejected(status: nat, body: string)
    | LookupCrash(key: string)                // `repositories[key]` is undefined: reading `.path` throws
    | DecodeCrash                             // `decodeURIComponent` threw

  /**
   The value matched against the keys: the lower-cased decoded `url`. An absent `url` is
   `undefined`, which `decodeURIComponent` turns into the string "undefined".
   */
  function Incoming(q: Query, decode: Decoder): (r: Option<string>)
    ensures q.Absent? ==> r == Some("undefined")
    ensures r.Some? ==> Lower(r.value) == r.value
  {
    match q
    case Absent =>
      LowerFixesLowercase("undefined");
      Some("undefined")
    case Present(raw) =>
      match decode(raw)
      case None => None
      case Some(d) =>
        LowerIdempotent(d);
        Some(Lower(d))
  }

  /** The first key from index `i` on whose lower case is `incoming`. */
  function FirstMatch(repositories: AllowList, incoming: string, i: nat): (r: Option<nat>)
    requires i <= |repositories|
    ensures r.Some? ==> i <= r.value < |repositories| && Lower(repositories[r.value].key) == incoming
    ensures r.Some? ==> forall j | i <= j < r.value :: Lower(repositories[j].key) != incoming
    ensures r.None? ==> forall j | i <= j < |repositories| :: Lower(repositories[j].key) != incoming
    decreases |repositories| - i
  {
    if i == |repositories| then None
    else if Lower(repositories[i].key) == incoming then Some(i)
    else FirstMatch(repositories, incoming, i + 1)
  }

  /**
   The handler: the first key that matches is looked up again by its lower-cased form and
   its working copy `<cwd>/repositories/<path>/<name>` pulled; with no match the status is
   500, with the usage message for an empty value and the refusal otherwise.
   */
  function UpdateRepository(q: Query, decode: Decoder, repositories: AllowList, cwd: Path): (r: Response)
    ensures r.Rejected? ==> r.status == Refused
  {
    match Incoming(q, decode)
    case None => DecodeCrash
    case Some(incoming) =>
      match FirstMatch(repositories, incoming, 0)
      case Some(k) =>
        var key := Lower(repositories[k].key);
        if HasKey(repositories, key) then
          var c := Lookup(repositories, key);
          Pulled(key, cwd + RepositoriesDir + c.path + [c.name])
        else
          LookupCrash(key)
      case None =>
        Rejected(Refused, if incoming == "" then UsageMessage else NotAllowedMessage(incoming))
  }

  /**
   A request is refused exactly when no key lower-cases to the incoming value; the body is
   the usage message only for an empty value, otherwise the refusal naming the lower-cased value.
   */
  lemma RefusedIffNoKeyMatches(q: Query, decode: Decoder, repositories: AllowList, cwd: Path)
    requires Incoming(q, decode).Some?
    ensures var incoming := Incoming(q, decode).value;
      var r := UpdateRepository(q, decode, repositories, cwd);
      && (r.Rejected? <==> forall j | 0 <= j < |repositories| :: Lower(repositories[j].key) != incoming)
      && (r.Rejected? ==> r == Rejected(500, if incoming == "" then UsageMessage else NotAllowedMessage(incoming)))
  {
    hide Lower, Lookup;
  }

  /**
   Without a `url` the value is "undefined", so the usage message is never sent: the
   refusal names "undefined" unless some key lower-cases to it.
   */
  lemma AbsentUrlNamesUndefined(decode: Decoder, repositories: AllowList, cwd: Path)
    requires forall j | 0 <= j < |repositories| :: Lower(repositories[j].key) != "undefined"
    ensures UpdateRepository(Absent, decode, repositories, cwd)
         == Rejected(500, "Repository undefined is not allowed")
  {
    hide Lower, Lookup, NotAllowedMessage;
    RefusedIffNoKeyMatches(Absent, decode, repositories, cwd);
    RefusalOfUndefined();
  }

  lemma RefusalOfUndefined()
    ensures NotAllowedMessage("undefined") == "Repository undefined is not allowed"
  {
  }

  /** The refusal and the usage message never coincide: they end differently. */
  lemma MessagesDiffer(incoming: string)
    ensures NotAllowedMessage(incoming) != UsageMessage
  {
    assert UsageMessage[|UsageMessage| - 1] == 'o';
    assert NotAllowedMessage(incoming)[|NotAllowedMessage(incoming)| - 1] == 'd';
  }

  /**
   The usage message answers exactly the requests whose `url` is present and decodes to
   the empty string, when no key is empty.
   */
  lemma UsageOnlyForEmptyUrl(q: Query, decode: Decoder, repositories: AllowList, cwd: Path)
    requires forall j | 0 <= j < |repositories| :: repositories[j].key != ""
    ensures UpdateRepository(q, decode, repositories, cwd) == Rejected(500, UsageMessage)
        <==> q.Present? && decode(q.raw) == Some("")
  {
    hide Lookup;
    var r := UpdateRepository(q, decode, repositories, cwd);
    match Incoming(q, decode)
    case None =>
    case Some(incoming) =>
      RefusedIffNoKeyMatches(q, decode, repositories, cwd);
      if incoming == "" {
        assert q.Present?;
        assert forall j | 0 <= j < |repositories| :: Lower(repositories[j].key) != incoming by {
          forall j | 0 <= j < |repositories|
            ensures |Lower(repositories[j].key)| != 0
          {
            assert repositories[j].key != "";
          }
        }
      } else {
        MessagesDiffer(incoming);
        if q.Present? {
          assert |Lower(decode(q.raw).value)| != 0;
        }
      }
  }

  /** Matching ignores case: two requests whose values differ only in case get the same response. */
  lemma MatchingIgnoresCase(raw: string, decode: Decoder, other: Decoder, repositories: AllowList, cwd: Path)
    requires decode(raw).Some? && other(raw).Some?
    requires Lower(decode(raw).value) == Lower(other(raw).value)
    ensures UpdateRepository(Present(raw), decode, repositories, cwd)
         == UpdateRepository(Present(raw), other, repositories, cwd)
  {
    hide FirstMatch, Lower, Lookup;
  }

  /**
   The first key matching the value decides the response: when its lower case is itself a
   key, that entry's working copy is pulled; otherwise reading its configuration throws.
   */
  lemma FirstMatchDecides(q: Query, decode: Decoder, repositories: AllowList, cwd: Path, k: nat)
    requires Incoming(q, decode).Some?
    requires k < |repositories| && Lower(repositories[k].key) == Incoming(q, decode).value
    requires forall j | 0 <= j < k :: Lower(repositories[j].key) != Incoming(q, decode).value
    ensures var key := Lower(repositories[k].key);
      var r := UpdateRepository(q, decode, repositories, cwd);
      && (HasKey(repositories, key) ==>
            var c := Lookup(repositories, key);
            r == Pulled(key, cwd + ["repositories"] + c.path + [c.name]))
      && (!HasKey(repositories, key) ==> r == LookupCrash(key))
  {
    hide Lower, Lookup;
    var incoming := Incoming(q, decode).value;
    FirstMatchIsFirst(repositories, incoming, 0, k);
  }

  /** `FirstMatch` finds the first matching index. */
  lemma {:induction false} FirstMatchIsFirst(repositories: AllowList, incoming: string, i: nat, k: nat)
    requires i <= k < |repositories| && Lower(repositories[k].key) == incoming
    requires forall j | i <= j < k :: Lower(repositories[j].key) != incoming
    ensures FirstMatch(repositories, incoming, i) == Some(k)
    decreases k - i
  {
    hide Lower;
    if i < k {
      FirstMatchIsFirst(repositories, incoming, i + 1, k);
    }
  }

  /**
   A configured key with an upper-case letter matches its lower-cased value but, unless the
   lower-cased key is configured too, the lookup by the lower-cased key finds nothing and
   the handler throws.
   */
  lemma UppercaseKeyCrashes(q: Query, decode: Decoder, repositories: AllowList, cwd: Path, k: nat)
    requires Incoming(q, decode).Some?
    requires k < |repositories| && Lower(repositories[k].key) == Incoming(q, decode).value
    requires forall j | 0 <= j < |repositories| :: repositories[j].key != Lower(repositories[k].key)
    ensures UpdateRepository(q, decode, repositories, cwd).LookupCrash?
  {
    hide Lower, Lookup;
    var incoming := Incoming(q, decode).value;
    match FirstMatch(repositories, incoming, 0)
    case Some(m) =>
      FirstMatchDecides(q, decode, repositories, cwd, m);
      assert !HasKey(repositories, Lower(repositories[m].key));
    case None =>
  }
}

/**
 * The change monitor: per-URL records of the last endpoint set and its fingerprint,
 * a bootstrap pass that records a baseline, and polling passes that notify and update
 * on a fingerprint mismatch.
 *
 * Fetching is an input: for each URL, the document the fetch and extraction produced,
 * or `None`. The fingerprint is an arbitrary function of the endpoint set, fixed for one
 * monitor; nothing assumes it is injective. A notification is returned as its message text.
 */
module Monitor {
  import opened Wrappers
  import opened Endpoints
  import opened Diff

  type Digest = string

  /** `last_endpoints` and `last_hashes`, as values. */
  datatype Records = Records(endpoints: map<string, set<string>>, hashes: map<string, Digest>)

  /** Both dictionaries know the same URLs, and each hash is the fingerprint of the recorded set. */
  ghost predicate Consistent(r: Records, fingerprint: set<string> -> Digest) {
    && r.endpoints.Keys == r.hashes.Keys
    && forall url :: url in r.hashes ==> r.hashes[url] == fingerprint(r.endpoints[url])
  }

  /** The record after the bootstrap step for one URL. */
  function Baseline(r: Records, fingerprint: set<string> -> Digest, url: string, spec: Option<SpecDoc>): Records {
    if Truthy(spec) then
      var e := EndpointSet(spec);
      Records(r.endpoints[url := e], r.hashes[url := fingerprint(e)])
    else r
  }

  /** Whether a poll replaces the record of `url`: a document came back, a hash is recorded, and it differs. */
  predicate Changed(r: Records, fingerprint: set<string> -> Digest, url: string, spec: Option<SpecDoc>) {
    Truthy(spec) && url in r.hashes && fingerprint(EndpointSet(spec)) != r.hashes[url]
  }

  /** The record after one poll of `url`. */
  function PollStep(r: Records, fingerprint: set<string> -> Digest, url: string, spec: Option<SpecDoc>): (r': Records)
    ensures r'.endpoints.Keys == r.endpoints.Keys + (if Changed(r, fingerprint, url, spec) then {url} else {})
    ensures r'.hashes.Keys == r.hashes.Keys
    ensures forall u :: u != url && u in r.endpoints ==> r'.endpoints[u] == r.endpoints[u]
    ensures forall u :: u != url && u in r.hashes ==> r'.hashes[u] == r.hashes[u]
    ensures !Changed(r, fingerprint, url, spec) ==> r' == r
    ensures Changed(r, fingerprint, url, spec) ==>
      r'.endpoints[url] == EndpointSet(spec) && r'.hashes[url] == fingerprint(EndpointSet(spec))
  {
    if Changed(r, fingerprint, url, spec) then
      var e := EndpointSet(spec);
      Records(r.endpoints[url := e], r.hashes[url := fingerprint(e)])
    else r
  }

  /** The text sent for a change of `url`. */
  function Message(url: string, changes: string): string {
    "Changes detected at " + url + "!\n```diff\n" + changes + "\n```"
  }

  /** The notification one poll of `url` sends, if any. */
  ghost function PollMessage(r: Records, fingerprint: set<string> -> Digest, url: string, spec: Option<SpecDoc>): Option<string>
    requires r.endpoints.Keys == r.hashes.Keys
  {
    if Changed(r, fingerprint, url, spec) then
      match Report(r.endpoints[url], EndpointSet(spec))
      case Some(changes) => Some(Message(url, changes))
      case None => None
    else None
  }

  /** The records after bootstrapping each URL in turn with its fetched document. */
  function BootstrapRecords(r: Records, fingerprint: set<string> -> Digest, urls: seq<string>, specs: seq<Option<SpecDoc>>): Records
    requires |urls| == |specs|
  {
    if urls == [] then r
    else
      var n := |urls| - 1;
      Baseline(BootstrapRecords(r, fingerprint, urls[..n], specs[..n]), fingerprint, urls[n], specs[n])
  }

  /** The records after one polling pass over the URLs; a pass never adds or drops a URL. */
  function CycleRecords(r: Records, fingerprint: set<string> -> Digest, urls: seq<string>, specs: seq<Option<SpecDoc>>): (r': Records)
    requires |urls| == |specs|
    requires r.endpoints.Keys == r.hashes.Keys
    ensures r'.endpoints.Keys == r.endpoints.Keys && r'.hashes.Keys == r.hashes.Keys
  {
    if urls == [] then r
    else
      var n := |urls| - 1;
      PollStep(CycleRecords(r, fingerprint, urls[..n], specs[..n]), fingerprint, urls[n], specs[n])
  }

  /** The notifications of one polling pass, in URL order. */
  ghost function CycleMessages(r: Records, fingerprint: set<string> -> Digest, urls: seq<string>, specs: seq<Option<SpecDoc>>): seq<string>
    requires |urls| == |specs|
    requires r.endpoints.Keys == r.hashes.Keys
  {
    if urls == [] then []
    else
      var n := |urls| - 1;
      var before := CycleRecords(r, fingerprint, urls[..n], specs[..n]);
      CycleMessages(r, fingerprint, urls[..n], specs[..n])
      + match PollMessage(before, fingerprint, urls[n], specs[n])
        case Some(m) => [m]
        case None => []
  }

  /** One more URL in a polling pass: one more poll step, and its notification if any. */
  lemma CycleSnoc(r: Records, fingerprint: set<string> -> Digest,
                  urls: seq<string>, specs: seq<Option<SpecDoc>>, i: nat)
    requires |urls| == |specs| && i < |urls|
    requires r.endpoints.Keys == r.hashes.Keys
    ensures var before := CycleRecords(r, fingerprint, urls[..i], specs[..i]);
      && CycleRecords(r, fingerprint, urls[..i + 1], specs[..i + 1])
           == PollStep(before, fingerprint, urls[i], specs[i])
      && CycleMessages(r, fingerprint, urls[..i + 1], specs[..i + 1])
           == CycleMessages(r, fingerprint, urls[..i], specs[..i])
              + match PollMessage(before, fingerprint, urls[i], specs[i])
                case Some(m) => [m]
                case None => []
  {
    assert urls[..i + 1][..i] == urls[..i] && specs[..i + 1][..i] == specs[..i];
  }

  /** Every mismatch that replaces a record is also notified: a consistent hash differs only if the set does. */
  lemma ChangeIsNotified(r: Records, fingerprint: set<string> -> Digest, url: string, spec: Option<SpecDoc>)
    requires Consistent(r, fingerprint)
    requires Changed(r, fingerprint, url, spec)
    ensures r.endpoints[url] != EndpointSet(spec)
    ensures PollMessage(r, fingerprint, url, spec).Some?
  {
    ReportNoneIffEqual(r.endpoints[url], EndpointSet(spec));
  }

  /** A notification names the URL, carries the report, and comes with the new record. */
  lemma NotificationMeansUpdate(r: Records, fingerprint: set<string> -> Digest, url: string, spec: Option<SpecDoc>)
    requires r.endpoints.Keys == r.hashes.Keys
    requires PollMessage(r, fingerprint, url, spec).Some?
    ensures url in r.endpoints && Report(r.endpoints[url], EndpointSet(spec)).Some?
    ensures PollMessage(r, fingerprint, url, spec) == Some(Message(url, Report(r.endpoints[url], EndpointSet(spec)).value))
    ensures PollStep(r, fingerprint, url, spec).endpoints[url] == EndpointSet(spec)
  {
  }

  /** An unchanged endpoint set changes nothing and sends nothing. */
  lemma UnchangedIsSilent(r: Records, fingerprint: set<string> -> Digest, url: string, spec: Option<SpecDoc>)
    requires Consistent(r, fingerprint)
    requires url in r.endpoints && r.endpoints[url] == EndpointSet(spec)
    ensures PollStep(r, fingerprint, url, spec) == r
    ensures PollMessage(r, fingerprint, url, spec).None?
  {
  }

  /** A fingerprint collision hides a real change: the record is kept and nothing is sent. */
  lemma CollisionHidesChange(r: Records, fingerprint: set<string> -> Digest, url: string, spec: Option<SpecDoc>)
    requires r.endpoints.Keys == r.hashes.Keys
    requires url in r.hashes && fingerprint(EndpointSet(spec)) == r.hashes[url]
    ensures PollStep(r, fingerprint, url, spec) == r
    ensures PollMessage(r, fingerprint, url, spec).None?
  {
  }

  /**
   * A URL without a recorded hash (its bootstrap fetch failed) is never given one by a
   * polling pass, and a poll of it sends nothing.
   */
  lemma {:induction false} UnrecordedStaysUnrecorded(r: Records, fingerprint: set<string> -> Digest,
                                                    urls: seq<string>, specs: seq<Option<SpecDoc>>, url: string)
    requires |urls| == |specs| && r.endpoints.Keys == r.hashes.Keys
    requires url !in r.hashes
    ensures url !in CycleRecords(r, fingerprint, urls, specs).hashes
    ensures forall spec :: PollMessage(CycleRecords(r, fingerprint, urls, specs), fingerprint, url, spec).None?
  {
  }

  /** A polling pass keeps the records consistent. */
  lemma {:induction false} CycleKeepsConsistent(r: Records, fingerprint: set<string> -> Digest,
                                                urls: seq<string>, specs: seq<Option<SpecDoc>>)
    requires |urls| == |specs|
    requires Consistent(r, fingerprint)
    ensures Consistent(CycleRecords(r, fingerprint, urls, specs), fingerprint)
  {
    if urls != [] {
      var n := |urls| - 1;
      CycleKeepsConsistent(r, fingerprint, urls[..n], specs[..n]);
    }
  }

  /** Bootstrapping keeps the records consistent. */
  lemma {:induction false} BootstrapKeepsConsistent(r: Records, fingerprint: set<string> -> Digest,
                                                    urls: seq<string>, specs: seq<Option<SpecDoc>>)
    requires |urls| == |specs|
    requires Consistent(r, fingerprint)
    ensures Consistent(BootstrapRecords(r, fingerprint, urls, specs), fingerprint)
  {
    if urls != [] {
      var n := |urls| - 1;
      BootstrapKeepsConsistent(r, fingerprint, urls[..n], specs[..n]);
    }
  }

  /**
   * After bootstrapping, a URL is recorded exactly when it was recorded before or one of
   * its fetches produced a document.
   */
  lemma {:induction false} BootstrapRecordsExactly(r: Records, fingerprint: set<string> -> Digest,
                                                   urls: seq<string>, specs: seq<Option<SpecDoc>>, url: string)
    requires |urls| == |specs|
    ensures url in BootstrapRecords(r, fingerprint, urls, specs).hashes <==>
      url in r.hashes || exists i :: 0 <= i < |urls| && urls[i] == url && Truthy(specs[i])
  {
    if urls != [] {
      var n := |urls| - 1;
      BootstrapRecordsExactly(r, fingerprint, urls[..n], specs[..n], url);
      if exists i :: 0 <= i < |urls| && urls[i] == url && Truthy(specs[i]) {
        var i :| 0 <= i < |urls| && urls[i] == url && Truthy(specs[i]);
        if i < n {
          assert urls[..n][i] == url && specs[..n][i] == specs[i];
        }
      }
    }
  }

  /** With distinct URLs, each fetched document's endpoint set and fingerprint become the baseline. */
  lemma {:induction false} BootstrapRecordsValues(r: Records, fingerprint: set<string> -> Digest,
                                                  urls: seq<string>, specs: seq<Option<SpecDoc>>)
    requires |urls| == |specs|
    requires forall i, j :: 0 <= i < j < |urls| ==> urls[i] != urls[j]
    ensures var r' := BootstrapRecords(r, fingerprint, urls, specs);
      forall i :: 0 <= i < |urls| && Truthy(specs[i]) ==>
        urls[i] in r'.endpoints && urls[i] in r'.hashes &&
        r'.endpoints[urls[i]] == EndpointSet(specs[i]) && r'.hashes[urls[i]] == fingerprint(EndpointSet(specs[i]))
  {
    if urls != [] {
      var n := |urls| - 1;
      BootstrapRecordsValues(r, fingerprint, urls[..n], specs[..n]);
      forall i | 0 <= i < n
        ensures urls[..n][i] == urls[i] && specs[..n][i] == specs[i] && urls[i] != urls[n]
      {
      }
    }
  }

  /** The monitor's state: the two dictionaries, updated in place. */
  class Monitor {
    var lastEndpoints: map<string, set<string>>
    var lastHashes: map<string, Digest>
    const fingerprint: set<string> -> Digest

    function State(): Records
      reads this
    {
      Records(lastEndpoints, lastHashes)
    }

    ghost predicate Valid()
      reads this
    {
      Consistent(State(), fingerprint)
    }

    constructor (fingerprint: set<string> -> Digest)
      ensures Valid() && this.fingerprint == fingerprint
      ensures lastEndpoints == map[] && lastHashes == map[]
    {
      this.fingerprint := fingerprint;
      lastEndpoints := map[];
      lastHashes := map[];
    }

    /** Bootstrap for one URL: record the endpoint set and its fingerprint when a document came back. */
    method RecordBaseline(url: string, spec: Option<SpecDoc>)
      requires Valid()
      modifies this
      ensures Valid()
      ensures State() == Baseline(old(State()), fingerprint, url, spec)
    {
      if Truthy(spec) {
        var endpoints := ExtractEndpoints(spec);
        lastEndpoints := lastEndpoints[url := endpoints];
        lastHashes := lastHashes[url := fingerprint(endpoints)];
      }
    }

    /** The bootstrap pass over all URLs, `specs[i]` being what the fetch of `urls[i]` produced. */
    method Bootstrap(urls: seq<string>, specs: seq<Option<SpecDoc>>)
      requires Valid() && |urls| == |specs|
      modifies this
      ensures Valid()
      ensures State() == BootstrapRecords(old(State()), fingerprint, urls, specs)
    {
      var i := 0;
      while i < |urls|
        invariant 0 <= i <= |urls|
        invariant Valid()
        invariant State() == BootstrapRecords(old(State()), fingerprint, urls[..i], specs[..i])
      {
        RecordBaseline(urls[i], specs[i]);
        i := i + 1;
        assert urls[..i][..i - 1] == urls[..i - 1] && specs[..i][..i - 1] == specs[..i - 1];
      }
      assert urls[..i] == urls && specs[..i] == specs;
    }

    /**
     * One poll of one URL: on a fingerprint mismatch for a recorded URL, notify the diff
     * (if any) and store the new set and hash; otherwise change nothing.
     */
    method Poll(url: string, spec: Option<SpecDoc>) returns (message: Option<string>)
      requires Valid()
      modifies this
      ensures Valid()
      ensures State() == PollStep(old(State()), fingerprint, url, spec)
      ensures message == PollMessage(old(State()), fingerprint, url, spec)
    {
      message := None;
      if Truthy(spec) {
        var current := ExtractEndpoints(spec);
        var currentHash := fingerprint(current);
        if url in lastHashes && currentHash != lastHashes[url] {
          var changes := GetDiff(lastEndpoints[url], current);
          if changes.Some? {
            message := Some(Message(url, changes.value));
          }
          lastEndpoints := lastEndpoints[url := current];
          lastHashes := lastHashes[url := currentHash];
        }
      }
    }

    /** One polling pass over all URLs; returns the notifications in the order they are sent. */
    method PollCycle(urls: seq<string>, specs: seq<Option<SpecDoc>>) returns (messages: seq<string>)
      requires Valid() && |urls| == |specs|
      modifies this
      ensures Valid()
      ensures State() == CycleRecords(old(State()), fingerprint, urls, specs)
      ensures messages == CycleMessages(old(State()), fingerprint, urls, specs)
    {
      messages := [];
      var i := 0;
      while i < |urls|
        invariant 0 <= i <= |urls|
        invariant Valid()
        invariant State() == CycleRecords(old(State()), fingerprint, urls[..i], specs[..i])
        invariant messages == CycleMessages(old(State()), fingerprint, urls[..i], specs[..i])
      {
        CycleSnoc(old(State()), fingerprint, urls, specs, i);
        var message := Poll(urls[i], specs[i]);
        if message.Some? {
          messages := messages + [message.value];
        }
        i := i + 1;
      }
      assert urls[..i] == urls && specs[..i] == specs;
    }
  }
}

/**
 The save pipeline of `SaverActivity` once a destination has been chosen:
 `useIntent` hands the shared content to one of three handlers, the handlers
 save through `saveUri`, `saveString` or `saveUrl`, and `finishIntent` turns
 the (possibly `null`) result into one of three notices.

 Everything outside the activity is an input here. The content resolver's
 display names and input streams, the files already on the device, the I/O
 faults of each destination, and the download manager's queue make up a
 `Device`. The network probe of a shared text is a `Probe`.
 */
module Saver {
  import opened Base
  import opened Filenames
  import opened Intents
  import opened StreamCopy

  /** A `DownloadManager.Request` as `saveUrl` builds it. `location` is the
      destination location, which `LocationHelper.removeRoot` turns into the
      public directory name. `description` is the source text the description
      string is formatted with. */
  datatype DownloadRequest = DownloadRequest(
    source: Uri, title: string, description: string, location: string, filename: string,
    overMobile: bool, overWifi: bool, overRoaming: bool)

  datatype Device = Device(
    fs: FileSystem,
    displayNames: DisplayNames,
    streams: map<Uri, seq<ReadStep>>,
    faults: map<Path, Faults>,
    downloads: seq<DownloadRequest>)

  /** Every stream `openInputStream` can return keeps the `read` contract. */
  predicate ValidDevice(d: Device) {
    forall u :: u in d.streams ==> ValidStream(d.streams[u])
  }

  /** The faults that hit writes to path `p`. */
  function FaultsAt(d: Device, p: Path): Faults {
    if p in d.faults then d.faults[p] else NoFaults
  }

  /** A save with a plain `Boolean` result. */
  datatype Step = Step(success: bool, device: Device)

  /** `saveUri`: open the content's input stream and, when there is one,
      copy it to the joined destination with `saveStream`. */
  function SaveUri(d: Device, location: Option<string>, uri: Uri, filename: string): (r: Step)
    requires ValidDevice(d)
    ensures r.device == d.(fs := r.device.fs)
    ensures uri !in d.streams ==> r == Step(false, d)
  {
    var dest := SafeAddPath(location, filename);
    if uri in d.streams then
      var saved := CopyToFile(d.fs, dest, d.streams[uri], FaultsAt(d, dest));
      Step(saved.success, d.(fs := saved.fs))
    else Step(false, d)
  }

  /** `saveUri` writes nothing but its destination. */
  lemma SaveUriOnlyTouches(d: Device, location: Option<string>, uri: Uri, filename: string)
    requires ValidDevice(d)
    ensures OnlyTouches(d.fs, SaveUri(d, location, uri, filename).device.fs, SafeAddPath(location, filename))
  {
  }

  /** The copy of `uri`'s stream to the destination hits no fault: there is
      a stream, the file opens, no read throws, and none of the
      max(1, chunks) writes throws. */
  predicate UriSaves(d: Device, location: Option<string>, uri: Uri, filename: string) {
    var dest := SafeAddPath(location, filename);
    && uri in d.streams
    && OutputOpens(d.fs, dest, FaultsAt(d, dest))
    && AllChunks(d.streams[uri])
    && (FaultsAt(d, dest).failingWrite.None? ||
        FaultsAt(d, dest).failingWrite.value >= Max1(|d.streams[uri]|))
  }

  /** `saveUri` returns true exactly when there is an input stream and
      nothing throws while copying it; the file then holds the stream's
      chunks padded to full buffers. */
  lemma SaveUriSucceedsIff(d: Device, location: Option<string>, uri: Uri, filename: string)
    requires ValidDevice(d)
    ensures SaveUri(d, location, uri, filename).success <==> UriSaves(d, location, uri, filename)
    ensures SaveUri(d, location, uri, filename).success ==>
      && AllChunks(d.streams[uri])
      && SafeAddPath(location, filename) in SaveUri(d, location, uri, filename).device.fs
      && SaveUri(d, location, uri, filename).device.fs[SafeAddPath(location, filename)] == Binary(Padded(Chunks(d.streams[uri])))
  {
    if uri in d.streams {
      var dest := SafeAddPath(location, filename);
      var faults := FaultsAt(d, dest);
      SaveStreamSucceedsIff(d.fs, dest, d.streams[uri], faults);
      if CopyToFile(d.fs, dest, d.streams[uri], faults).success {
        CopyWithoutFaults(d.fs, dest, d.streams[uri], faults);
      }
    }
  }

  /** The text save to the destination hits no fault before `success = true`:
      the file opens and the single `write` does not throw. */
  predicate TextSaves(d: Device, location: Option<string>, filename: string) {
    var dest := SafeAddPath(location, filename);
    OutputOpens(d.fs, dest, FaultsAt(d, dest)) && FaultsAt(d, dest).failingWrite != Some(0)
  }

  /** `saveString`: create the file when absent, open a writer on it
      (discarding what it held) and write the text. The `BufferedWriter`
      holds the text until `close` flushes it, so a failing `close` leaves
      the file empty, although the result is already true. */
  function SaveString(d: Device, location: Option<string>, s: string, filename: string): (r: Step)
    ensures r.device == d.(fs := r.device.fs)
    ensures OnlyTouches(d.fs, r.device.fs, SafeAddPath(location, filename))
    ensures r.success <==> TextSaves(d, location, filename)
    ensures r.success ==>
      && SafeAddPath(location, filename) in r.device.fs
      && r.device.fs[SafeAddPath(location, filename)] ==
           if FaultsAt(d, SafeAddPath(location, filename)).closeFails then Empty else Text(s)
  {
    var dest := SafeAddPath(location, filename);
    var faults := FaultsAt(d, dest);
    if dest !in d.fs && faults.createFails then Step(false, d)
    else
      var created := CreateIfAbsent(d.fs, dest);
      if faults.openFails then Step(false, d.(fs := created))
      else if faults.failingWrite == Some(0) || faults.closeFails then
        Step(faults.failingWrite != Some(0), d.(fs := created[dest := Empty]))
      else Step(true, d.(fs := created[dest := Text(s)]))
  }

  /** A save with Kotlin's `Boolean?` result: `None` means the download was
      handed over and its outcome is not observed. */
  datatype UrlStep = UrlStep(success: Option<bool>, device: Device)

  /** The request `saveUrl` enqueues. */
  function RequestFor(uri: Uri, location: string, filename: string): DownloadRequest {
    DownloadRequest(uri, filename, uri.text, location, filename, true, true, true)
  }

  /** The placeholder `saveUrl` creates does not throw: with a location set,
      the destination exists or its `createNewFile` succeeds. */
  predicate PlaceholderCreates(d: Device, location: Option<string>, filename: string) {
    var dest := SafeAddPath(location, filename);
    location.Some? ==> !(dest !in d.fs && FaultsAt(d, dest).createFails)
  }

  /** `DownloadManager.Request(uri)` does not throw: it only accepts
      `http` and `https` references. */
  predicate DownloadAccepted(uri: Uri) {
    uri.scheme == "http" || uri.scheme == "https"
  }

  /** `saveUrl`: with a location set, create a placeholder file when absent,
      enqueue the download and report it as in progress; without a location,
      do nothing and report failure. */
  function SaveUrl(d: Device, location: Option<string>, uri: Uri, filename: string): (r: UrlStep)
    requires PlaceholderCreates(d, location, filename)
    requires location.Some? ==> DownloadAccepted(uri)
    ensures r.success != Some(true)
    ensures r.success.None? <==> location.Some?
    ensures location.None? ==> r.device == d
    ensures location.Some? ==>
      && r.device == d.(fs := r.device.fs, downloads := r.device.downloads)
      && r.device.downloads == d.downloads + [RequestFor(uri, location.value, filename)]
      && SafeAddPath(location, filename) in r.device.fs
      && r.device.fs == CreateIfAbsent(d.fs, SafeAddPath(location, filename))
  {
    match location
    case None => UrlStep(Some(false), d)
    case Some(loc) =>
      var dest := SafeAddPath(location, filename);
      UrlStep(None, d.(fs := CreateIfAbsent(d.fs, dest), downloads := d.downloads + [RequestFor(uri, loc, filename)]))
  }

  /** `handleImageVideo`: the single shared stream, if any, saved under the
      name derived from it. */
  function HandleImageVideo(d: Device, location: Option<string>, stream: Option<Uri>): (r: Step)
    requires ValidDevice(d)
    requires stream.Some? ==> NameResolves(d.displayNames, stream.value)
    ensures stream.None? ==> r == Step(false, d)
    ensures stream.Some? ==> r == SaveUri(d, location, stream.value, GetUriFilename(d.displayNames, stream.value))
    ensures r.success <==> stream.Some? && UriSaves(d, location, stream.value, GetUriFilename(d.displayNames, stream.value))
    ensures stream.Some? ==>
      OnlyTouches(d.fs, r.device.fs, SafeAddPath(location, GetUriFilename(d.displayNames, stream.value)))
  {
    match stream
    case None => Step(false, d)
    case Some(u) =>
      SaveUriOnlyTouches(d, location, u, GetUriFilename(d.displayNames, u));
      SaveUriSucceedsIff(d, location, u, GetUriFilename(d.displayNames, u));
      SaveUri(d, location, u, GetUriFilename(d.displayNames, u))
  }

  /** The result of `handleMultipleImages`, with the results of the
      `saveUri` calls it made, in order. */
  datatype Batch = Batch(success: bool, results: seq<bool>, device: Device)

  /** The items the batch reaches (all of them up to the first failed save)
      have a name `getFilename(uri)` can resolve; the source evaluates
      `getFilename` only while the running result is still true. */
  predicate Resolvable(d: Device, location: Option<string>, uris: seq<Uri>)
    requires ValidDevice(d)
    decreases |uris|
  {
    |uris| == 0 ||
    (NameResolves(d.displayNames, uris[0]) &&
     var s := SaveUri(d, location, uris[0], GetUriFilename(d.displayNames, uris[0]));
     (s.success ==> Resolvable(s.device, location, uris[1..])))
  }

  predicate AllTrue(bs: seq<bool>) {
    forall i :: 0 <= i < |bs| ==> bs[i]
  }

  /** The calls a batch made: every one but the last returned true. */
  predicate StoppedAtFirstFailure(results: seq<bool>) {
    |results| == 0 || AllTrue(results[..|results| - 1])
  }

  /** The `forEach` of `handleMultipleImages`: `success = success && saveUri(...)`,
      where `&&` skips the save once `success` is false. */
  function SaveEach(d: Device, location: Option<string>, uris: seq<Uri>, success: bool): (r: Batch)
    requires ValidDevice(d)
    requires success ==> Resolvable(d, location, uris)
    ensures !success ==> r == Batch(false, [], d)
    ensures |r.results| <= |uris|
    ensures r.success <==> success && |r.results| == |uris| && AllTrue(r.results)
    ensures r.device == d.(fs := r.device.fs)
    decreases |uris|
  {
    if |uris| == 0 then Batch(success, [], d)
    else if success then
      var s := SaveUri(d, location, uris[0], GetUriFilename(d.displayNames, uris[0]));
      var rest := SaveEach(s.device, location, uris[1..], s.success);
      ConsResults(s.success, rest.results);
      Batch(rest.success, [s.success] + rest.results, rest.device)
    else SaveEach(d, location, uris[1..], false)
  }

  /** The batch stops at the first save that returns false: every call but
      the last returned true, and when calls were skipped the last one
      returned false. */
  lemma {:induction false} BatchStopsAtFirstFailure(d: Device, location: Option<string>, uris: seq<Uri>, success: bool)
    requires ValidDevice(d)
    requires success ==> Resolvable(d, location, uris)
    ensures StoppedAtFirstFailure(SaveEach(d, location, uris, success).results)
    ensures success && |SaveEach(d, location, uris, success).results| < |uris| ==>
      var rs := SaveEach(d, location, uris, success).results;
      |rs| > 0 && !rs[|rs| - 1]
    decreases |uris|
  {
    if |uris| > 0 && success {
      var s := SaveUri(d, location, uris[0], GetUriFilename(d.displayNames, uris[0]));
      var rest := SaveEach(s.device, location, uris[1..], s.success);
      BatchStopsAtFirstFailure(s.device, location, uris[1..], s.success);
      ConsResults(s.success, rest.results);
      var rs := [s.success] + rest.results;
      assert SaveEach(d, location, uris, success).results == rs;
      if |rest.results| > 0 {
        assert rs[|rs| - 1] == rest.results[|rest.results| - 1];
      }
    }
  }

  lemma ConsResults(b: bool, bs: seq<bool>)
    ensures AllTrue([b] + bs) <==> b && AllTrue(bs)
    ensures b && StoppedAtFirstFailure(bs) ==> StoppedAtFirstFailure([b] + bs)
    ensures !b && bs == [] ==> StoppedAtFirstFailure([b] + bs)
  {
    var r := [b] + bs;
    assert r[0] == b;
    if AllTrue(r) {
      forall i | 0 <= i < |bs| ensures bs[i] {
        assert r[i + 1] == bs[i];
      }
    }
    if b && AllTrue(bs) {
      forall i | 0 <= i < |r| ensures r[i] {
        if i > 0 {
          assert r[i] == bs[i - 1];
        }
      }
    }
    if |bs| > 0 {
      assert r[..|r| - 1] == [b] + bs[..|bs| - 1];
      var p := r[..|r| - 1];
      if b && AllTrue(bs[..|bs| - 1]) {
        forall i | 0 <= i < |p| ensures p[i] {
          if i > 0 {
            assert p[i] == bs[..|bs| - 1][i - 1];
          }
        }
      }
    }
  }

  /** `handleMultipleImages`: a missing list fails, an empty one succeeds,
      otherwise the items are saved in order until one fails. */
  function HandleMultipleImages(d: Device, location: Option<string>, uris: Option<seq<Uri>>): (r: Batch)
    requires ValidDevice(d)
    requires uris.Some? ==> Resolvable(d, location, uris.value)
    ensures uris.None? ==> r == Batch(false, [], d)
    ensures uris == Some([]) ==> r.success && r.device == d
    ensures uris.Some? ==> |r.results| <= |uris.value|
    ensures uris.Some? ==> StoppedAtFirstFailure(r.results)
    ensures uris.Some? ==> (r.success <==> |r.results| == |uris.value| && AllTrue(r.results))
    ensures uris.Some? && |r.results| < |uris.value| ==> |r.results| > 0 && !r.results[|r.results| - 1]
    ensures uris.Some? ==> r.device == d.(fs := r.device.fs)
    ensures uris.Some? ==>
      && AllResolve(d.displayNames, uris.value[..|r.results|])
      && r.results == AttemptAll(d, location, uris.value[..|r.results|])
      && r.device == Replay(d, location, uris.value[..|r.results|])
      && OnlyTouchesAll(d.fs, r.device.fs, Destinations(d.displayNames, location, uris.value[..|r.results|]))
  {
    match uris
    case None => Batch(false, [], d)
    case Some(us) =>
      BatchStopsAtFirstFailure(d, location, us, true);
      BatchSavesAttempted(d, location, us);
      BatchResultsAreAttempts(d, location, us);
      BatchOnlyTouchesAttempted(d, location, us);
      SaveEach(d, location, us, true)
  }

  /** Every item has a resolvable name. */
  predicate AllResolve(names: DisplayNames, uris: seq<Uri>) {
    forall i :: 0 <= i < |uris| ==> NameResolves(names, uris[i])
  }

  /** The other policy the batch could follow: attempt every item and keep
      each result. */
  function AttemptAll(d: Device, location: Option<string>, uris: seq<Uri>): (rs: seq<bool>)
    requires ValidDevice(d) && AllResolve(d.displayNames, uris)
    ensures |rs| == |uris|
    decreases |uris|
  {
    if |uris| == 0 then []
    else
      var s := SaveUri(d, location, uris[0], GetUriFilename(d.displayNames, uris[0]));
      [s.success] + AttemptAll(s.device, location, uris[1..])
  }

  /** With every name resolvable, the batch's precondition holds. */
  lemma {:induction false} AllResolveIsResolvable(d: Device, location: Option<string>, uris: seq<Uri>)
    requires ValidDevice(d) && AllResolve(d.displayNames, uris)
    ensures Resolvable(d, location, uris)
    decreases |uris|
  {
    if |uris| > 0 {
      var s := SaveUri(d, location, uris[0], GetUriFilename(d.displayNames, uris[0]));
      var tail := uris[1..];
      assert AllResolve(s.device.displayNames, tail) by {
        forall i | 0 <= i < |tail| ensures NameResolves(s.device.displayNames, tail[i]) {
          assert tail[i] == uris[i + 1];
        }
      }
      AllResolveIsResolvable(s.device, location, tail);
    }
  }

  /** `a` is an initial segment of `b`. */
  predicate IsPrefix(a: seq<bool>, b: seq<bool>) {
    |a| <= |b| && a == b[..|a|]
  }

  lemma ConsPrefix(x: bool, a: seq<bool>, b: seq<bool>)
    requires IsPrefix(a, b)
    ensures IsPrefix([x] + a, [x] + b)
  {
    assert ([x] + b)[..|a| + 1] == [x] + b[..|a|];
  }

  /** The batch makes the same calls as attempting every item, in the same
      order, but stops after the first one that returns false. */
  lemma {:induction false} BatchIsPrefixOfAttemptAll(d: Device, location: Option<string>, uris: seq<Uri>)
    requires ValidDevice(d) && AllResolve(d.displayNames, uris)
    ensures Resolvable(d, location, uris)
    ensures IsPrefix(SaveEach(d, location, uris, true).results, AttemptAll(d, location, uris))
    decreases |uris|
  {
    AllResolveIsResolvable(d, location, uris);
    if |uris| > 0 {
      var s := SaveUri(d, location, uris[0], GetUriFilename(d.displayNames, uris[0]));
      var tail := uris[1..];
      assert AllResolve(s.device.displayNames, tail) by {
        forall i | 0 <= i < |tail| ensures NameResolves(s.device.displayNames, tail[i]) {
          assert tail[i] == uris[i + 1];
        }
      }
      var rest := AttemptAll(s.device, location, tail);
      assert AttemptAll(d, location, uris) == [s.success] + rest;
      if s.success {
        BatchIsPrefixOfAttemptAll(s.device, location, tail);
        ConsPrefix(true, SaveEach(s.device, location, tail, true).results, rest);
      } else {
        ConsPrefix(false, [], rest);
      }
    }
  }

  /** The batch's result is the conjunction of the results of attempting
      every item. */
  lemma {:induction false} BatchSucceedsIffAllWould(d: Device, location: Option<string>, uris: seq<Uri>)
    requires ValidDevice(d) && AllResolve(d.displayNames, uris)
    ensures Resolvable(d, location, uris)
    ensures SaveEach(d, location, uris, true).success <==> AllTrue(AttemptAll(d, location, uris))
    decreases |uris|
  {
    AllResolveIsResolvable(d, location, uris);
    if |uris| > 0 {
      var s := SaveUri(d, location, uris[0], GetUriFilename(d.displayNames, uris[0]));
      var tail := uris[1..];
      assert AllResolve(s.device.displayNames, tail) by {
        forall i | 0 <= i < |tail| ensures NameResolves(s.device.displayNames, tail[i]) {
          assert tail[i] == uris[i + 1];
        }
      }
      var rest := AttemptAll(s.device, location, tail);
      assert AttemptAll(d, location, uris) == [s.success] + rest;
      ConsResults(s.success, rest);
      if s.success {
        BatchSucceedsIffAllWould(s.device, location, tail);
      }
    }
  }

  lemma AllResolveTail(names: DisplayNames, uris: seq<Uri>)
    requires |uris| > 0 && AllResolve(names, uris)
    ensures AllResolve(names, uris[1..])
  {
    forall i | 0 <= i < |uris| - 1 ensures NameResolves(names, uris[1..][i]) {
      assert uris[1..][i] == uris[i + 1];
    }
  }

  /** The device after `saveUri` is called on every item in order, whatever
      each call returns. */
  function Replay(d: Device, location: Option<string>, uris: seq<Uri>): (r: Device)
    requires ValidDevice(d) && AllResolve(d.displayNames, uris)
    ensures r == d.(fs := r.fs)
    decreases |uris|
  {
    if |uris| == 0 then d
    else
      var s := SaveUri(d, location, uris[0], GetUriFilename(d.displayNames, uris[0]));
      AllResolveTail(d.displayNames, uris);
      Replay(s.device, location, uris[1..])
  }

  /** The destinations `saveUri` writes for the items. */
  function Destinations(names: DisplayNames, location: Option<string>, uris: seq<Uri>): (ps: set<Path>)
    requires AllResolve(names, uris)
    decreases |uris|
  {
    if |uris| == 0 then {}
    else
      AllResolveTail(names, uris);
      {SafeAddPath(location, GetUriFilename(names, uris[0]))} + Destinations(names, location, uris[1..])
  }

  /** Saving the items in order writes no file but their destinations. */
  lemma {:induction false} ReplayOnlyTouches(d: Device, location: Option<string>, uris: seq<Uri>)
    requires ValidDevice(d) && AllResolve(d.displayNames, uris)
    ensures OnlyTouchesAll(d.fs, Replay(d, location, uris).fs, Destinations(d.displayNames, location, uris))
    decreases |uris|
  {
    if |uris| > 0 {
      var name := GetUriFilename(d.displayNames, uris[0]);
      var s := SaveUri(d, location, uris[0], name);
      AllResolveTail(d.displayNames, uris);
      SaveUriOnlyTouches(d, location, uris[0], name);
      ReplayOnlyTouches(s.device, location, uris[1..]);
    }
  }

  /** The batch's device is the device after saving exactly the items it
      attempted, in order: the items after the first failed save are never
      saved. */
  lemma {:induction false} BatchSavesAttempted(d: Device, location: Option<string>, uris: seq<Uri>)
    requires ValidDevice(d) && Resolvable(d, location, uris)
    ensures AllResolve(d.displayNames, uris[..|SaveEach(d, location, uris, true).results|])
    ensures SaveEach(d, location, uris, true).device ==
      Replay(d, location, uris[..|SaveEach(d, location, uris, true).results|])
    decreases |uris|
  {
    if |uris| == 0 {
      assert uris[..0] == [];
    } else {
      SaveEachStep(d, location, uris);
      var s := SaveUri(d, location, uris[0], GetUriFilename(d.displayNames, uris[0]));
      var tail := uris[1..];
      var rest := SaveEach(s.device, location, tail, s.success);
      var k := |rest.results|;
      if s.success {
        BatchSavesAttempted(s.device, location, tail);
      }
      assert tail[..k] == [] || s.success;
      PrefixCons(uris, k);
      AllResolveCons(d.displayNames, uris[0], tail[..k]);
      ReplayCons(d, location, uris[0], tail[..k]);
    }
  }

  /** The batch's results are those of attempting exactly the items it
      reached, in order. */
  lemma {:induction false} BatchResultsAreAttempts(d: Device, location: Option<string>, uris: seq<Uri>)
    requires ValidDevice(d) && Resolvable(d, location, uris)
    ensures AllResolve(d.displayNames, uris[..|SaveEach(d, location, uris, true).results|])
    ensures SaveEach(d, location, uris, true).results ==
      AttemptAll(d, location, uris[..|SaveEach(d, location, uris, true).results|])
    decreases |uris|
  {
    if |uris| == 0 {
      assert uris[..0] == [];
    } else {
      SaveEachStep(d, location, uris);
      var s := SaveUri(d, location, uris[0], GetUriFilename(d.displayNames, uris[0]));
      var tail := uris[1..];
      var rest := SaveEach(s.device, location, tail, s.success);
      var k := |rest.results|;
      if s.success {
        BatchResultsAreAttempts(s.device, location, tail);
      }
      assert tail[..k] == [] || s.success;
      PrefixCons(uris, k);
      AllResolveCons(d.displayNames, uris[0], tail[..k]);
      AttemptAllCons(d, location, uris[0], tail[..k]);
    }
  }

  /** Attempting a non-empty list is saving its head and attempting its tail. */
  lemma AttemptAllCons(d: Device, location: Option<string>, u: Uri, us: seq<Uri>)
    requires ValidDevice(d) && AllResolve(d.displayNames, [u] + us)
    ensures NameResolves(d.displayNames, u) && AllResolve(d.displayNames, us)
    ensures
      var s := SaveUri(d, location, u, GetUriFilename(d.displayNames, u));
      AttemptAll(d, location, [u] + us) == [s.success] + AttemptAll(s.device, location, us)
  {
    assert ([u] + us)[0] == u;
    assert ([u] + us)[1..] == us;
    AllResolveTail(d.displayNames, [u] + us);
  }

  /** One step of the batch: save the first item, then continue with the
      rest and the running result. */
  lemma SaveEachStep(d: Device, location: Option<string>, uris: seq<Uri>)
    requires ValidDevice(d) && |uris| > 0 && Resolvable(d, location, uris)
    ensures NameResolves(d.displayNames, uris[0])
    ensures
      var s := SaveUri(d, location, uris[0], GetUriFilename(d.displayNames, uris[0]));
      && (s.success ==> Resolvable(s.device, location, uris[1..]))
      && SaveEach(d, location, uris, true) ==
           var rest := SaveEach(s.device, location, uris[1..], s.success);
           Batch(rest.success, [s.success] + rest.results, rest.device)
  {
  }

  lemma PrefixCons<T>(s: seq<T>, k: nat)
    requires k < |s|
    ensures s[..k + 1] == [s[0]] + s[1..][..k]
  {
  }

  lemma AllResolveCons(names: DisplayNames, u: Uri, us: seq<Uri>)
    requires NameResolves(names, u) && AllResolve(names, us)
    ensures AllResolve(names, [u] + us)
  {
    var all := [u] + us;
    forall i | 0 <= i < |all| ensures NameResolves(names, all[i]) {
      if i > 0 {
        assert all[i] == us[i - 1];
      }
    }
  }

  /** Replaying a non-empty list is saving its head and replaying its tail. */
  lemma ReplayCons(d: Device, location: Option<string>, u: Uri, us: seq<Uri>)
    requires ValidDevice(d) && AllResolve(d.displayNames, [u] + us)
    ensures NameResolves(d.displayNames, u)
    ensures Replay(d, location, [u] + us) ==
      Replay(SaveUri(d, location, u, GetUriFilename(d.displayNames, u)).device, location, us)
  {
    assert ([u] + us)[0] == u;
    assert ([u] + us)[1..] == us;
  }

  /** A batch writes no file but the destinations of the items it attempted. */
  lemma BatchOnlyTouchesAttempted(d: Device, location: Option<string>, uris: seq<Uri>)
    requires ValidDevice(d) && Resolvable(d, location, uris)
    ensures AllResolve(d.displayNames, uris[..|SaveEach(d, location, uris, true).results|])
    ensures OnlyTouchesAll(d.fs, SaveEach(d, location, uris, true).device.fs,
      Destinations(d.displayNames, location, uris[..|SaveEach(d, location, uris, true).results|]))
  {
    BatchSavesAttempted(d, location, uris);
    ReplayOnlyTouches(d, location, uris[..|SaveEach(d, location, uris, true).results|]);
  }

  /** The network probe of a shared text: `URL(text)` throws
      `MalformedURLException`, or the text is a URL whose connection reports
      the given `Content-Type` header (`None` for a missing header). `uri` is
      `Uri.parse(text)`. */
  datatype Probe = Malformed | Url(uri: Uri, contentType: Option<string>)

  /** The URL branch does not throw: the header is present and the file name
      has a source (the subject, or the URL's last path segment). */
  predicate ProbeUsable(probe: Probe, subject: Option<string>) {
    probe.Url? ==> probe.contentType.Some? && (subject.Some? || probe.uri.lastPathSegment.Some?)
  }

  /** The probe's `uri` is `Uri.parse(text)`, whose text is the shared text. */
  predicate ProbeParses(probe: Probe, text: string) {
    probe.Url? ==> probe.uri.text == text
  }

  /** A `Content-Type` that `handleText` downloads. */
  predicate IsMedia(contentType: string) {
    StartsWith(contentType, "image/") || StartsWith(contentType, "video/")
  }

  /** What `handleText` leads to: no background task at all (the intent has
      no text, so `finishIntent` is never called), or the background task's final
      `Boolean?` result. */
  datatype TextRun = NoTask | Finished(success: Option<bool>, device: Device)

  /** The file name `handleText` uses for a text that is not a URL. */
  function TextFilename(text: string, subject: Option<string>): string {
    GetFilename(subject.OrElse(text))
  }

  /** The file name `handleText` uses for a URL. */
  function UrlFilename(uri: Uri, subject: Option<string>): string
    requires subject.Some? || uri.lastPathSegment.Some?
  {
    match subject
    case Some(s) => GetFilename(s)
    case None => GetFilename(uri.lastPathSegment.value)
  }

  /** The background task of `handleText` does not throw: the probe is
      usable and belongs to the text, and a media download's placeholder can
      be created and its request built. */
  predicate TextRunnable(d: Device, location: Option<string>, text: string, subject: Option<string>, probe: Probe) {
    && ProbeUsable(probe, subject)
    && ProbeParses(probe, text)
    && (probe.Url? && IsMedia(probe.contentType.value) ==>
          && PlaceholderCreates(d, location, UrlFilename(probe.uri, subject))
          && (location.Some? ==> DownloadAccepted(probe.uri)))
  }

  /** `handleText`: the background task with the network probe as input. */
  function HandleText(d: Device, location: Option<string>, text: Option<string>, subject: Option<string>, probe: Probe): (r: TextRun)
    requires text.Some? ==> TextRunnable(d, location, text.value, subject, probe)
    ensures text.None? <==> r == NoTask
    ensures text.Some? && probe.Malformed? ==>
      && r.success.Some?
      && r.device == d.(fs := r.device.fs)
      && OnlyTouches(d.fs, r.device.fs, SafeAddPath(location, TextFilename(text.value, subject)))
      && r == Finished(Some(SaveString(d, location, text.value, TextFilename(text.value, subject)).success),
                       SaveString(d, location, text.value, TextFilename(text.value, subject)).device)
    ensures text.Some? && probe.Url? && IsMedia(probe.contentType.value) ==>
      && r.success != Some(true)
      && (r.success.None? <==> location.Some?)
      && (location.None? ==> r == Finished(Some(false), d))
      && (location.Some? ==> r.device.downloads == d.downloads + [RequestFor(probe.uri, location.value, UrlFilename(probe.uri, subject))])
      && probe.uri.text == text.value
      && r == Finished(SaveUrl(d, location, probe.uri, UrlFilename(probe.uri, subject)).success,
                       SaveUrl(d, location, probe.uri, UrlFilename(probe.uri, subject)).device)
    ensures text.Some? && probe.Url? && !IsMedia(probe.contentType.value) ==> r == Finished(Some(false), d)
  {
    match text
    case None => NoTask
    case Some(t) =>
      match probe
      case Malformed =>
        var s := SaveString(d, location, t, TextFilename(t, subject));
        Finished(Some(s.success), s.device)
      case Url(uri, contentType) =>
        var filename := UrlFilename(uri, subject);
        if IsMedia(contentType.value) then
          var s := SaveUrl(d, location, uri, filename);
          Finished(s.success, s.device)
        else Finished(Some(false), d)
  }

  /** The three notices of `finishIntent`. */
  datatype Toast = SaveInProgress | SaveSuccessful | SaveFailed

  /** `finishIntent`: `null` is in progress, `true` is success, `false` is failure. */
  function FinishIntent(success: Option<bool>): (t: Toast)
    ensures t == SaveInProgress <==> success.None?
    ensures t == SaveSuccessful <==> success == Some(true)
    ensures t == SaveFailed <==> success == Some(false)
  {
    match success
    case None => SaveInProgress
    case Some(true) => SaveSuccessful
    case Some(false) => SaveFailed
  }

  /** Distinct results give distinct notices. */
  lemma FinishIntentDistinguishes(a: Option<bool>, b: Option<bool>)
    ensures FinishIntent(a) == FinishIntent(b) ==> a == b
  {
  }

  /** The parts of the incoming intent the pipeline reads. */
  datatype Intent = Intent(
    action: Option<string>,
    mimeType: Option<string>,
    stream: Option<Uri>,
    streams: Option<seq<Uri>>,
    text: Option<string>,
    subject: Option<string>)

  /** The notice shown (`None` when `finishIntent` is never called) and the
      device afterwards. */
  datatype Run = Run(toast: Option<Toast>, device: Device)

  /** The handler chosen for the intent does not throw. */
  predicate CanRun(d: Device, location: Option<string>, intent: Intent, probe: Probe)
    requires ValidDevice(d)
  {
    match Dispatch(intent.action, intent.mimeType)
    case ImageVideoHandler => intent.stream.Some? ==> NameResolves(d.displayNames, intent.stream.value)
    case TextHandler => intent.text.Some? ==> TextRunnable(d, location, intent.text.value, intent.subject, probe)
    case MultipleImagesHandler => intent.streams.Some? ==> Resolvable(d, location, intent.streams.value)
    case NoHandler => true
  }

  /** `useIntent` followed by `finishIntent`. */
  function UseIntent(d: Device, location: Option<string>, intent: Intent, probe: Probe): (r: Run)
    requires ValidDevice(d)
    requires CanRun(d, location, intent, probe)
    ensures r.toast.None? ==> Dispatch(intent.action, intent.mimeType) == TextHandler && intent.text.None?
    ensures r.toast == Some(SaveInProgress) ==> Dispatch(intent.action, intent.mimeType) == TextHandler && location.Some?
    ensures Dispatch(intent.action, intent.mimeType) == NoHandler ==> r == Run(Some(SaveFailed), d)
    ensures Dispatch(intent.action, intent.mimeType) == ImageVideoHandler ==>
      var s := HandleImageVideo(d, location, intent.stream);
      r == Run(Some(FinishIntent(Some(s.success))), s.device)
    ensures Dispatch(intent.action, intent.mimeType) == MultipleImagesHandler ==>
      var b := HandleMultipleImages(d, location, intent.streams);
      r == Run(Some(FinishIntent(Some(b.success))), b.device)
    ensures Dispatch(intent.action, intent.mimeType) == TextHandler && intent.text.None? ==> r == Run(None, d)
    ensures Dispatch(intent.action, intent.mimeType) == TextHandler && intent.text.Some? ==>
      var t := HandleText(d, location, intent.text, intent.subject, probe);
      r == Run(Some(FinishIntent(t.success)), t.device)
  {
    match Dispatch(intent.action, intent.mimeType)
    case ImageVideoHandler =>
      var s := HandleImageVideo(d, location, intent.stream);
      Run(Some(FinishIntent(Some(s.success))), s.device)
    case TextHandler =>
      var t := HandleText(d, location, intent.text, intent.subject, probe);
      if t.NoTask? then Run(None, d) else Run(Some(FinishIntent(t.success)), t.device)
    case MultipleImagesHandler =>
      var b := HandleMultipleImages(d, location, intent.streams);
      Run(Some(FinishIntent(Some(b.success))), b.device)
    case NoHandler => Run(Some(SaveFailed), d)
  }

  /** Content `testSupported` rejects is never saved: `useIntent` reports a
      failure and leaves the device as it was. Content it accepts always
      reaches a save handler. */
  lemma UseIntentOnlySavesSupported(d: Device, location: Option<string>, intent: Intent, probe: Probe)
    requires ValidDevice(d)
    requires CanRun(d, location, intent, probe)
    ensures !TestSupported(intent.action, intent.mimeType) ==> UseIntent(d, location, intent, probe) == Run(Some(SaveFailed), d)
    ensures TestSupported(intent.action, intent.mimeType) ==> Dispatch(intent.action, intent.mimeType) != NoHandler
  {
    DispatchAgreesWithTestSupported(intent.action, intent.mimeType);
  }

  /** A success notice means the content was saved: the handler for its kind
      reported true, and only a supported single item or a batch whose every
      item saved can report it. */
  lemma SuccessNoticeMeansSaved(d: Device, location: Option<string>, intent: Intent, probe: Probe)
    requires ValidDevice(d)
    requires CanRun(d, location, intent, probe)
    requires UseIntent(d, location, intent, probe).toast == Some(SaveSuccessful)
    ensures TestSupported(intent.action, intent.mimeType)
    ensures Dispatch(intent.action, intent.mimeType) == ImageVideoHandler ==>
      intent.stream.Some? && intent.stream.value in d.streams
    ensures Dispatch(intent.action, intent.mimeType) == MultipleImagesHandler ==>
      intent.streams.Some? &&
      var b := HandleMultipleImages(d, location, intent.streams);
      |b.results| == |intent.streams.value| && forall i :: 0 <= i < |b.results| ==> b.results[i]
    ensures Dispatch(intent.action, intent.mimeType) == TextHandler ==>
      intent.text.Some? && probe.Malformed?
  {
    DispatchAgreesWithTestSupported(intent.action, intent.mimeType);
  }

  /** The success notice is shown exactly when the handler's saves all hit
      no fault: for a single item, its stream is copied without a fault; for
      a batch whose names all resolve, attempting every item would succeed
      for each; for text, it is not a URL and the text file is written. */
  lemma SuccessNoticeIff(d: Device, location: Option<string>, intent: Intent, probe: Probe)
    requires ValidDevice(d)
    requires CanRun(d, location, intent, probe)
    ensures Dispatch(intent.action, intent.mimeType) == ImageVideoHandler ==>
      (UseIntent(d, location, intent, probe).toast == Some(SaveSuccessful) <==>
         intent.stream.Some? &&
         UriSaves(d, location, intent.stream.value, GetUriFilename(d.displayNames, intent.stream.value)))
    ensures Dispatch(intent.action, intent.mimeType) == MultipleImagesHandler && intent.streams.None? ==>
      UseIntent(d, location, intent, probe) == Run(Some(SaveFailed), d)
    ensures Dispatch(intent.action, intent.mimeType) == MultipleImagesHandler &&
            intent.streams.Some? && AllResolve(d.displayNames, intent.streams.value) ==>
      (UseIntent(d, location, intent, probe).toast == Some(SaveSuccessful) <==>
         AllTrue(AttemptAll(d, location, intent.streams.value)))
    ensures Dispatch(intent.action, intent.mimeType) == TextHandler ==>
      (UseIntent(d, location, intent, probe).toast == Some(SaveSuccessful) <==>
         intent.text.Some? && probe.Malformed? &&
         TextSaves(d, location, TextFilename(intent.text.value, intent.subject)))
  {
    match Dispatch(intent.action, intent.mimeType)
    case MultipleImagesHandler =>
      if intent.streams.Some? && AllResolve(d.displayNames, intent.streams.value) {
        BatchSucceedsIffAllWould(d, location, intent.streams.value);
      }
    case _ =>
  }

  /** A supported single item with a stream that reads without error, saved
      to a destination where no step fails, gets the success notice. */
  lemma CleanSaveSucceeds(d: Device, location: Option<string>, intent: Intent, probe: Probe)
    requires ValidDevice(d)
    requires CanRun(d, location, intent, probe)
    requires Dispatch(intent.action, intent.mimeType) == ImageVideoHandler
    requires intent.stream.Some? && intent.stream.value in d.streams
    requires AllChunks(d.streams[intent.stream.value])
    requires FaultsAt(d, SafeAddPath(location, GetUriFilename(d.displayNames, intent.stream.value))) == NoFaults
    ensures UseIntent(d, location, intent, probe).toast == Some(SaveSuccessful)
  {
    SuccessNoticeIff(d, location, intent, probe);
  }
}

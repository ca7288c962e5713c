/**
 Pulling images into the content-addressed store.

 The hash is any function, the registry can answer anything, and a pull can fail or be cut off between
 any two of its effects. A blob reaches its final path before its digest is verified, so a pull that
 does not get through can leave one bad blob behind; the theorems say exactly that much.
 */
module ImageStore {
  import opened Wrappers
  import opened ImageReference
  import Text

  type Byte = b: int | 0 <= b < 0x100
  type Bytes = seq<Byte>
  type Hash = Bytes -> string

  datatype Descriptor = Descriptor(mediaType: string, digest: string, size: nat)

  // The file name of a blob: its digest, without the algorithm if that is sha256.
  function BlobName(digest: string): string {
    if DIGEST_PREFIX <= digest then digest[|DIGEST_PREFIX|..] else digest
  }

  // What the name of a blob is, said of the digest and the name.
  predicate IsFileOf(name: string, digest: string) {
    digest == "sha256:" + name || (name == digest && !("sha256:" <= digest))
  }

  lemma FileOfExactly(name: string, digest: string)
    ensures IsFileOf(name, digest) <==> name == BlobName(digest)
  {
    assert "sha256:" <= digest ==> digest == "sha256:" + digest[7..];
  }

  function NamesOf(digests: seq<string>): set<string> {
    set digest <- digests :: BlobName(digest)
  }

  datatype ImageManifest = ImageManifest(config: Descriptor, layers: seq<Descriptor>) {
    // The digests of its blobs, in the order in which they are fetched.
    function Digests(): seq<string> {
      [config.digest] + seq(|layers|, i requires 0 <= i < |layers| => layers[i].digest)
    }

    // Their file names.
    function Names(): set<string> {
      NamesOf(Digests())
    }
  }

  // A manifest file: a manifest, or what an interrupted write leaves, which cannot be parsed.
  datatype ManifestFile = Saved(manifest: ImageManifest) | Torn

  // ------------------------------------------------------------------ paths

  // Digests are hexadecimal, so that blob names are plain file names without an extension.
  predicate IsPlain(name: string) {
    name != "" && '.' !in name && '/' !in name
  }

  predicate HasPlainNames(m: ImageManifest) {
    forall name <- m.Names() :: IsPlain(name)
  }

  lemma PlainDigest(m: ImageManifest, n: nat)
    requires HasPlainNames(m) && n < |m.Digests()|
    ensures IsPlain(BlobName(m.Digests()[n]))
  {
    assert m.Digests()[n] in m.Digests();
  }

  // Where a blob is downloaded to before it is moved to its name.
  function PartName(name: string): string {
    name + ".part"
  }

  function LayerPath(digest: string): string {
    "blobs/sha256/" + BlobName(digest)
  }

  // Relative to `manifests`. The registry is not part of the path.
  function ManifestPath(r: ImageReference): string {
    r.repository + "/" + r.reference
  }

  // ------------------------------------------------------------------ the store

  type Blobs = map<string, Bytes>

  // The files of the blob directory that are at their final path.
  function AtFinalPath(files: map<string, Bytes>): Blobs {
    map name | name in files && IsPlain(name) :: files[name]
  }

  // The blobs whose content does not hash to their name.
  function Bad(hash: Hash, blobs: Blobs): set<string> {
    set name | name in blobs && hash(blobs[name]) != name
  }

  // Every new blob hashes to its name.
  ghost predicate NewAreGood(hash: Hash, before: Blobs, after: Blobs) {
    forall name :: name in after && name !in before ==> hash(after[name]) == name
  }

  lemma NoNewBad(hash: Hash, before: Blobs, after: Blobs)
    requires Bad(hash, after) <= Bad(hash, before)
    ensures NewAreGood(hash, before, after)
  {
    forall name | name in after && name !in before
      ensures hash(after[name]) == name
    {
      assert name !in Bad(hash, before);
    }
  }

  // No blob is lost or changed, and new ones are blobs of the manifest.
  predicate Grows(before: Blobs, after: Blobs, names: set<string>) {
    && before.Keys <= after.Keys <= before.Keys + names
    && forall name :: name in before ==> after[name] == before[name]
  }

  // The configuration and every layer of a manifest are among these files.
  ghost predicate HasBlobs(files: map<string, Bytes>, m: ImageManifest) {
    && (forall name :: IsFileOf(name, m.config.digest) ==> name in files)
    && (forall i, name :: 0 <= i < |m.layers| && IsFileOf(name, m.layers[i].digest) ==> name in files)
  }

  lemma DigestsAre(m: ImageManifest)
    ensures |m.Digests()| == |m.layers| + 1 && m.Digests()[0] == m.config.digest
    ensures forall i :: 0 <= i < |m.layers| ==> m.Digests()[i + 1] == m.layers[i].digest
  {
  }

  lemma NamesAreBlobs(files: map<string, Bytes>, m: ImageManifest)
    ensures HasBlobs(files, m) <==> m.Names() <= files.Keys
  {
    var digests := m.Digests();
    DigestsAre(m);
    forall name, digest
      ensures IsFileOf(name, digest) <==> name == BlobName(digest)
    {
      FileOfExactly(name, digest);
    }
    if HasBlobs(files, m) {
      forall name | name in m.Names()
        ensures name in files
      {
        var digest :| digest in digests && BlobName(digest) == name;
        var i :| 0 <= i < |digests| && digests[i] == digest;
        assert i > 0 ==> digest == m.layers[i - 1].digest;
      }
    }
    if m.Names() <= files.Keys {
      forall i | 0 <= i < |digests|
        ensures BlobName(digests[i]) in files
      {
        assert digests[i] in digests;
      }
      forall i, name | 0 <= i < |m.layers| && IsFileOf(name, m.layers[i].digest)
        ensures name in files
      {
        assert digests[i + 1] == m.layers[i].digest;
      }
    }
  }

  datatype Store = Store(blobs: Blobs, manifests: map<string, ManifestFile>)

  const EMPTY: Store := Store(map[], map[])

  // ------------------------------------------------------------------ a pull

  // How far a pull got with its last effect, saving the manifest.
  datatype Save = NotReached | Interrupted | Written

  // A pull: the manifest the registry answered with, if any, what became of it, and the store after.
  datatype Pull = Pull(reference: ImageReference, manifest: Option<ImageManifest>, save: Save, ok: bool, after: Store)

  predicate Step(hash: Hash, before: Store, p: Pull) {
    && (p.ok ==> p.save == Written)
    && match p.manifest
       case None => p.save == NotReached && p.after == before
       case Some(m) =>
         && Grows(before.blobs, p.after.blobs, m.Names())
         && match p.save
            case NotReached =>
              // At most one blob reached its path without being verified.
              && |Bad(hash, p.after.blobs) - Bad(hash, before.blobs)| <= 1
              && p.after.manifests == before.manifests
            case Interrupted =>
              && Bad(hash, p.after.blobs) == Bad(hash, before.blobs)
              && m.Names() <= p.after.blobs.Keys
              && p.after.manifests == before.manifests[ManifestPath(p.reference) := Torn]
            case Written =>
              && Bad(hash, p.after.blobs) == Bad(hash, before.blobs)
              && m.Names() <= p.after.blobs.Keys
              && p.after.manifests == before.manifests[ManifestPath(p.reference) := Saved(m)]
  }

  // The store after the first `n` of a sequence of pulls into an empty store.
  function After(pulls: seq<Pull>, n: nat): Store
    requires n <= |pulls|
  {
    if n == 0 then EMPTY else pulls[n - 1].after
  }

  predicate StepAt(hash: Hash, pulls: seq<Pull>, i: nat)
    requires i < |pulls|
  {
    Step(hash, After(pulls, i), pulls[i])
  }

  predicate Legal(hash: Hash, pulls: seq<Pull>) {
    forall i :: 0 <= i < |pulls| ==> StepAt(hash, pulls, i)
  }

  // ------------------------------------------------------------------ main results

  // Every saved manifest has all its blobs, after any sequence of pulls.
  lemma {:induction false} SavedManifestsAreComplete(hash: Hash, pulls: seq<Pull>, n: nat, path: string)
    requires Legal(hash, pulls) && n <= |pulls|
    requires path in After(pulls, n).manifests && After(pulls, n).manifests[path].Saved?
    ensures HasBlobs(After(pulls, n).blobs, After(pulls, n).manifests[path].manifest)
  {
    NamesAreBlobs(After(pulls, n).blobs, After(pulls, n).manifests[path].manifest);
    if n == 0 {
    } else {
      var before, p := After(pulls, n - 1), pulls[n - 1];
      assert StepAt(hash, pulls, n - 1);
      if path in before.manifests && before.manifests[path] == p.after.manifests[path] {
        SavedManifestsAreComplete(hash, pulls, n - 1, path);
      }
    }
  }

  // A blob's bytes never change once it has its name.
  lemma {:induction false} BlobsNeverChange(hash: Hash, pulls: seq<Pull>, i: nat, j: nat, name: string)
    requires Legal(hash, pulls) && i <= j <= |pulls| && name in After(pulls, i).blobs
    ensures name in After(pulls, j).blobs && After(pulls, j).blobs[name] == After(pulls, i).blobs[name]
  {
    if i == j {
    } else {
      BlobsNeverChange(hash, pulls, i, j - 1, name);
      assert StepAt(hash, pulls, j - 1);
    }
  }

  // The pulls among the first `n` that did not get as far as saving their manifest.
  function Unfinished(pulls: seq<Pull>, n: nat): nat
    requires n <= |pulls|
  {
    if n == 0 then 0 else Unfinished(pulls, n - 1) + (if pulls[n - 1].save == NotReached then 1 else 0)
  }

  lemma {:induction false} SubsetSize<T>(a: set<T>, b: set<T>)
    requires a <= b
    ensures |a| <= |b|
  {
    if a == {} {
    } else {
      var x :| x in a;
      SubsetSize(a - {x}, b - {x});
    }
  }

  // Each bad blob is the fault of a pull that did not get through: there are never more of them than
  // such pulls.
  lemma {:induction false} BadBlobsAreFewerThanFailures(hash: Hash, pulls: seq<Pull>, n: nat)
    requires Legal(hash, pulls) && n <= |pulls|
    ensures |Bad(hash, After(pulls, n).blobs)| <= Unfinished(pulls, n)
  {
    if n == 0 {
    } else {
      BadBlobsAreFewerThanFailures(hash, pulls, n - 1);
      assert StepAt(hash, pulls, n - 1);
      var before, after := Bad(hash, After(pulls, n - 1).blobs), Bad(hash, After(pulls, n).blobs);
      SubsetSize(after * before, before);
      assert after == (after - before) + (after * before);
    }
  }

  // A pull that succeeds leaves an image whose blobs all hash to their names if and only if none of
  // them was bad before: a bad blob counts as already present.
  lemma IntegrityExactly(hash: Hash, pulls: seq<Pull>, n: nat, m: ImageManifest)
    requires Legal(hash, pulls) && n < |pulls| && pulls[n].ok && pulls[n].manifest == Some(m)
    ensures var after := After(pulls, n + 1).blobs;
            && m.Names() <= after.Keys
            && ((forall name <- m.Names() :: hash(after[name]) == name)
                <==> m.Names() !! Bad(hash, After(pulls, n).blobs))
  {
    var before, after := After(pulls, n).blobs, After(pulls, n + 1).blobs;
    assert StepAt(hash, pulls, n);
    if name :| name in m.Names() && name in Bad(hash, before) {
      assert name in Bad(hash, after);
    }
    forall name | name in m.Names() && hash(after[name]) != name
      ensures name in Bad(hash, before)
    {
      assert name in Bad(hash, after);
    }
  }

  // The manifest file of a reference is what the last pull that reached its saving made of it.
  lemma {:induction false} LastSaveWins(hash: Hash, pulls: seq<Pull>, k: nat, n: nat, m: ImageManifest)
    requires Legal(hash, pulls) && k < n <= |pulls|
    requires pulls[k].save != NotReached && pulls[k].manifest == Some(m)
    requires forall i :: k < i < n && ManifestPath(pulls[i].reference) == ManifestPath(pulls[k].reference) ==>
               pulls[i].save == NotReached
    ensures var path, manifests := ManifestPath(pulls[k].reference), After(pulls, n).manifests;
            && path in manifests
            && manifests[path] == if pulls[k].save == Written then Saved(m) else Torn
  {
    assert StepAt(hash, pulls, n - 1);
    if k == n - 1 {
    } else {
      LastSaveWins(hash, pulls, k, n - 1, m);
    }
  }

  predicate SameName(r: ImageReference, r': ImageReference) {
    r.repository == r'.repository && r.reference == r'.reference
  }

  // Two references share a manifest file if and only if they agree on repository and reference, whatever
  // their registries, provided the references contain no slash.
  lemma ManifestPathInjective(r: ImageReference, r': ImageReference)
    requires '/' !in r.reference && '/' !in r'.reference
    ensures ManifestPath(r) == ManifestPath(r') <==> SameName(r, r')
  {
    if ManifestPath(r) == ManifestPath(r') {
      Text.FindLastUnique(r.repository, '/', r.reference);
      Text.FindLastUnique(r'.repository, '/', r'.reference);
      assert ManifestPath(r) == r.repository + ['/'] + r.reference == r'.repository + ['/'] + r'.reference;
      assert ManifestPath(r)[..|r.repository|] == r.repository;
      assert ManifestPath(r)[|r.repository| + 1..] == r.reference;
    }
  }

  // Pull `k` saved its manifest, and no later pull of the same repository and reference reached its saving.
  ghost predicate LastToSave(pulls: seq<Pull>, k: nat, reference: ImageReference) {
    && k < |pulls| && pulls[k].save == Written && SameName(pulls[k].reference, reference)
    && forall i :: k < i < |pulls| && SameName(pulls[i].reference, reference) ==> pulls[i].save == NotReached
  }

  // A reference stands for the manifest that was last saved under its repository and reference, from
  // whatever registry.
  lemma LastSaveIsRead(hash: Hash, pulls: seq<Pull>, k: nat, reference: ImageReference)
    requires Legal(hash, pulls) && LastToSave(pulls, k, reference)
    requires '/' !in reference.reference && forall p <- pulls :: '/' !in p.reference.reference
    ensures var path, manifests := ManifestPath(reference), After(pulls, |pulls|).manifests;
            pulls[k].manifest.Some? && path in manifests && manifests[path] == Saved(pulls[k].manifest.value)
  {
    assert StepAt(hash, pulls, k);
    forall i | k <= i < |pulls|
      ensures ManifestPath(pulls[i].reference) == ManifestPath(reference) <==> SameName(pulls[i].reference, reference)
    {
      assert pulls[i] in pulls;
      ManifestPathInjective(pulls[i].reference, reference);
    }
    LastSaveWins(hash, pulls, k, |pulls|, pulls[k].manifest.value);
  }

  // ------------------------------------------------------------------ the store as the source writes it

  // The answer to a request for a blob: a refusal, or a stream of chunks that may break off.
  datatype BlobReply = Refused | Stream(chunks: seq<Bytes>, complete: bool)

  // What the registry answers during one pull: to a request for a manifest, by its URL, and to requests for
  // blobs, by their URLs and the places of the blobs in the manifest.
  datatype Registry = Registry(
    authenticates: bool,
    manifest: string -> Option<ImageManifest>,
    blobs: (nat, string) -> BlobReply)

  function ManifestUrl(r: ImageReference): string {
    "https://" + r.registry + "/v2/" + r.repository + "/manifests/" + r.reference
  }

  function BlobUrl(r: ImageReference, digest: string): string {
    "https://" + r.registry + "/v2/" + r.repository + "/blobs/" + digest
  }

  // The answers to the requests for the blobs with these digests.
  ghost function Answers(registry: Registry, r: ImageReference, digests: seq<string>): nat -> BlobReply {
    (n: nat) => registry.blobs(n, if n < |digests| then BlobUrl(r, digests[n]) else "")
  }

  datatype Error =
    | NotAuthenticated
    | NoManifest
    | DownloadFailed
    | DigestMismatch
    | ManifestMissing
    | LayerMissing(path: string)
    | IoError

  type Reply<+T> = Wrappers.Reply<T, Error>

  function Concat(chunks: seq<Bytes>): Bytes {
    if chunks == [] then [] else Concat(chunks[..|chunks| - 1]) + chunks[|chunks| - 1]
  }

  lemma {:induction false} ConcatAppends(a: seq<Bytes>, b: seq<Bytes>)
    ensures Concat(a + b) == Concat(a) + Concat(b)
    ensures |a| == 1 ==> Concat(a) == a[0]
  {
    if b == [] {
      assert a + b == a;
    } else {
      var n := |b| - 1;
      ConcatAppends(a, b[..n]);
      assert (a + b)[..|a| + n] == a + b[..n];
      assert Concat(a) + (Concat(b[..n]) + b[n]) == Concat(a) + Concat(b[..n]) + b[n];
    }
  }

  predicate Complete(reply: BlobReply) {
    reply.Stream? && reply.complete
  }

  // The reply is the whole of what the digest promises.
  predicate Genuine(hash: Hash, digest: string, reply: BlobReply) {
    DIGEST_PREFIX <= digest && Complete(reply) && hash(Concat(reply.chunks)) == BlobName(digest)
  }

  ghost predicate AllGenuine(hash: Hash, m: ImageManifest, blobs: nat -> BlobReply) {
    forall i :: 0 <= i < |m.Digests()| ==> Genuine(hash, m.Digests()[i], blobs(i))
  }

  // ------------------------------------------------------------------ fetching blobs

  // What fetching one blob makes of the blobs. A blob that is rejected stays.
  predicate Fetches(hash: Hash, before: Blobs, digest: string, reply: BlobReply, r: Reply<()>, after: Blobs) {
    var name := BlobName(digest);
    && Grows(before, after, {name})
    && (name in after && name !in before ==> Complete(reply) && after[name] == Concat(reply.chunks))
    && (name in before ==> r == Success(()) && after == before)
    && match r
       case Success(_) => name in after && (name in before || Genuine(hash, digest, reply))
       case Failure(DigestMismatch) => name in after && !Genuine(hash, digest, reply)
       case Failure(DownloadFailed) => after == before && !Complete(reply)
       case Failure(error) => error == IoError
       case Cut => true
  }

  // Blob number `n` is there when its turn comes, or the registry sends what its digest says.
  predicate Provided(hash: Hash, before: Blobs, digests: seq<string>, blobs: nat -> BlobReply, n: nat)
    requires n < |digests|
  {
    var name := BlobName(digests[n]);
    || name in before
    || Genuine(hash, digests[n], blobs(n))
    || exists i :: 0 <= i < n && BlobName(digests[i]) == name
  }

  predicate IsFirst(digests: seq<string>, i: nat)
    requires i < |digests|
  {
    forall j :: 0 <= j < i ==> BlobName(digests[j]) != BlobName(digests[i])
  }

  // Each of the first `n` blobs that is new is what the registry sent for the first place that it has.
  ghost predicate Sent(before: Blobs, digests: seq<string>, blobs: nat -> BlobReply, n: nat, now: Blobs)
    requires n <= |digests|
  {
    forall i :: 0 <= i < n && BlobName(digests[i]) in now && BlobName(digests[i]) !in before && IsFirst(digests, i) ==>
      Complete(blobs(i)) && now[BlobName(digests[i])] == Concat(blobs(i).chunks)
  }

  // The first `n` blobs have been fetched.
  ghost predicate Fetched(hash: Hash, before: Blobs, digests: seq<string>, blobs: nat -> BlobReply, n: nat, now: Blobs)
    requires n <= |digests|
  {
    && Grows(before, now, NamesOf(digests[..n]))
    && Bad(hash, now) == Bad(hash, before)
    && Sent(before, digests, blobs, n, now)
    && forall i :: 0 <= i < n ==> BlobName(digests[i]) in now && Provided(hash, before, digests, blobs, i)
  }

  ghost predicate AllProvided(hash: Hash, before: Blobs, digests: seq<string>, blobs: nat -> BlobReply) {
    forall n :: 0 <= n < |digests| ==> Provided(hash, before, digests, blobs, n)
  }

  // Fetching ended at blob number `n`, the first that is not provided.
  ghost predicate FailsAt(hash: Hash, before: Blobs, digests: seq<string>, blobs: nat -> BlobReply, n: nat,
                          r: Reply<()>, after: Blobs)
  {
    && n < |digests|
    && (forall i :: 0 <= i < n ==> Provided(hash, before, digests, blobs, i))
    && !Provided(hash, before, digests, blobs, n)
    && match r
       case Failure(DigestMismatch) =>
         var name := BlobName(digests[n]);
         // The rejected blob is new, is there, and is what the registry sent.
         Complete(blobs(n)) && name in after && name !in before && after[name] == Concat(blobs(n).chunks)
       case Failure(DownloadFailed) => !Complete(blobs(n))
       case _ => false
  }

  // What fetching the blobs in order comes to.
  ghost predicate FetchesAll(hash: Hash, before: Blobs, digests: seq<string>, blobs: nat -> BlobReply, r: Reply<()>,
                             after: Blobs)
  {
    && Grows(before, after, NamesOf(digests))
    && |Bad(hash, after) - Bad(hash, before)| <= 1
    && Sent(before, digests, blobs, |digests|, after)
    && match r
       case Success(_) => Fetched(hash, before, digests, blobs, |digests|, after)
       case Failure(error) => error == IoError || exists n :: FailsAt(hash, before, digests, blobs, n, r, after)
       case Cut => true
  }

  lemma SucceedsIfProvided(hash: Hash, before: Blobs, digests: seq<string>, blobs: nat -> BlobReply, r: Reply<()>,
                           after: Blobs)
    requires FetchesAll(hash, before, digests, blobs, r, after)
    ensures r != Cut && r != Failure(IoError) ==> (r.Success? <==> AllProvided(hash, before, digests, blobs))
  {
  }

  lemma AllNamesFetched(hash: Hash, before: Blobs, m: ImageManifest, blobs: nat -> BlobReply, after: Blobs)
    requires Fetched(hash, before, m.Digests(), blobs, |m.Digests()|, after)
    ensures m.Names() <= after.Keys
  {
    forall name | name in m.Names()
      ensures name in after
    {
      var digest :| digest in m.Digests() && BlobName(digest) == name;
      var i :| 0 <= i < |m.Digests()| && m.Digests()[i] == digest;
      assert BlobName(m.Digests()[i]) in after;
    }
  }

  lemma GrowsThen(before: Blobs, now: Blobs, after: Blobs, names: set<string>, name: string)
    requires Grows(before, now, names) && Grows(now, after, {name})
    ensures Grows(before, after, names + {name})
  {
  }

  // Only a blob that is not genuine can be a new bad one.
  lemma BadAfterFetch(hash: Hash, before: Blobs, digest: string, reply: BlobReply, r: Reply<()>, after: Blobs)
    requires Fetches(hash, before, digest, reply, r, after)
    ensures Bad(hash, before) <= Bad(hash, after) <= Bad(hash, before) + {BlobName(digest)}
    ensures r.Success? ==> Bad(hash, after) == Bad(hash, before)
  {
  }

  lemma NamesOfOneMore(digests: seq<string>, n: nat)
    requires n < |digests|
    ensures NamesOf(digests[..n + 1]) == NamesOf(digests[..n]) + {BlobName(digests[n])}
    ensures NamesOf(digests[..n + 1]) <= NamesOf(digests)
  {
    assert digests[..n + 1] == digests[..n] + [digests[n]];
  }

  lemma NewNameIsEarlier(digests: seq<string>, n: nat, name: string)
    requires n <= |digests| && name in NamesOf(digests[..n])
    ensures exists j :: 0 <= j < n && BlobName(digests[j]) == name
  {
    var digest :| digest in digests[..n] && BlobName(digest) == name;
    var j :| 0 <= j < n && digests[..n][j] == digest;
    assert BlobName(digests[j]) == name;
  }

  // Blob number `n` of those fetched in order is provided if it is there or genuine.
  lemma ProvidedInTurn(hash: Hash, before: Blobs, digests: seq<string>, blobs: nat -> BlobReply, n: nat, now: Blobs)
    requires n < |digests| && Fetched(hash, before, digests, blobs, n, now)
    ensures Provided(hash, before, digests, blobs, n)
        <==> BlobName(digests[n]) in now || Genuine(hash, digests[n], blobs(n))
  {
    var name := BlobName(digests[n]);
    if name in now && name !in before {
      NewNameIsEarlier(digests, n, name);
    }
  }

  lemma NothingFetched(hash: Hash, before: Blobs, digests: seq<string>, blobs: nat -> BlobReply)
    ensures Fetched(hash, before, digests, blobs, 0, before)
  {
  }

  lemma AllFetched(hash: Hash, before: Blobs, digests: seq<string>, blobs: nat -> BlobReply, after: Blobs)
    requires Fetched(hash, before, digests, blobs, |digests|, after)
    ensures FetchesAll(hash, before, digests, blobs, Success(()), after)
  {
    assert digests[..|digests|] == digests;
  }

  // One more blob is fetched, or fetching it adds it or nothing.
  lemma SentOneMore(hash: Hash, before: Blobs, digests: seq<string>, blobs: nat -> BlobReply, n: nat, now: Blobs,
                    r: Reply<()>, after: Blobs)
    requires n < |digests| && Fetched(hash, before, digests, blobs, n, now)
    requires Fetches(hash, now, digests[n], blobs(n), r, after)
    ensures Sent(before, digests, blobs, n + 1, after)
  {
    var name := BlobName(digests[n]);
    if name in now && name !in before {
      NewNameIsEarlier(digests, n, name);
    }
    forall i | 0 <= i < n + 1 && BlobName(digests[i]) in after && BlobName(digests[i]) !in before && IsFirst(digests, i)
      ensures Complete(blobs(i)) && after[BlobName(digests[i])] == Concat(blobs(i).chunks)
    {
    }
  }

  // What was sent for the first blobs is all that was sent, if no others were added.
  lemma SentIsAll(before: Blobs, digests: seq<string>, blobs: nat -> BlobReply, n: nat, after: Blobs)
    requires n <= |digests| && Sent(before, digests, blobs, n, after) && Grows(before, after, NamesOf(digests[..n]))
    ensures Sent(before, digests, blobs, |digests|, after)
  {
    forall i | n <= i < |digests| && BlobName(digests[i]) in after && BlobName(digests[i]) !in before
      ensures !IsFirst(digests, i)
    {
      NewNameIsEarlier(digests, n, BlobName(digests[i]));
    }
  }

  lemma FetchedOneMore(hash: Hash, before: Blobs, digests: seq<string>, blobs: nat -> BlobReply, n: nat, now: Blobs,
                       after: Blobs)
    requires n < |digests| && Fetched(hash, before, digests, blobs, n, now)
    requires Fetches(hash, now, digests[n], blobs(n), Success(()), after)
    ensures Fetched(hash, before, digests, blobs, n + 1, after)
  {
    GrowsThen(before, now, after, NamesOf(digests[..n]), BlobName(digests[n]));
    NamesOfOneMore(digests, n);
    BadAfterFetch(hash, now, digests[n], blobs(n), Success(()), after);
    SentOneMore(hash, before, digests, blobs, n, now, Success(()), after);
    ProvidedInTurn(hash, before, digests, blobs, n, now);
  }

  lemma AtMostOne(a: set<string>, b: set<string>, x: string)
    requires b <= a + {x}
    ensures |b - a| <= 1
  {
    SubsetSize(b - a, {x});
  }

  lemma FetchedNoMore(hash: Hash, before: Blobs, digests: seq<string>, blobs: nat -> BlobReply, n: nat, now: Blobs,
                      r: Reply<()>, after: Blobs)
    requires n < |digests| && Fetched(hash, before, digests, blobs, n, now)
    requires !r.Success? && Fetches(hash, now, digests[n], blobs(n), r, after)
    ensures FetchesAll(hash, before, digests, blobs, r, after)
  {
    GrowsThen(before, now, after, NamesOf(digests[..n]), BlobName(digests[n]));
    NamesOfOneMore(digests, n);
    BadAfterFetch(hash, now, digests[n], blobs(n), r, after);
    AtMostOne(Bad(hash, before), Bad(hash, after), BlobName(digests[n]));
    SentOneMore(hash, before, digests, blobs, n, now, r, after);
    SentIsAll(before, digests, blobs, n + 1, after);
    ProvidedInTurn(hash, before, digests, blobs, n, now);
    if r.Failure? && r.error != IoError {
      assert FailsAt(hash, before, digests, blobs, n, r, after);
    }
  }

  predicate IsAnswer(content: Bytes, reply: BlobReply) {
    reply.Stream? && reply.complete && content == Concat(reply.chunks)
  }

  predicate IsLayer(layers: seq<Descriptor>, name: string) {
    exists layer <- layers :: IsFileOf(name, layer.digest)
  }

  // Every new blob is what the registry answered to the request for it: for the configuration, and then for
  // the layers in order.
  ghost predicate AsAnswered(before: map<string, Bytes>, after: map<string, Bytes>, r: ImageReference, m: ImageManifest,
                             registry: Registry)
  {
    var url := "https://" + r.registry + "/v2/" + r.repository + "/blobs/";
    && (forall name :: IsFileOf(name, m.config.digest) && name in after && name !in before ==>
          IsAnswer(after[name], registry.blobs(0, url + m.config.digest)))
    && (forall i, name ::
          0 <= i < |m.layers| && IsFileOf(name, m.layers[i].digest) && name in after && name !in before
          && !IsFileOf(name, m.config.digest) && !IsLayer(m.layers[..i], name) ==>
            IsAnswer(after[name], registry.blobs(i + 1, url + m.layers[i].digest)))
  }

  // The first place of a name among the digests, for a layer that is neither the configuration nor an
  // earlier layer.
  lemma FirstPlace(m: ImageManifest, i: nat, name: string)
    requires i < |m.layers| && IsFileOf(name, m.layers[i].digest)
    requires !IsFileOf(name, m.config.digest) && !IsLayer(m.layers[..i], name)
    ensures |m.Digests()| == |m.layers| + 1 && m.Digests()[i + 1] == m.layers[i].digest
    ensures BlobName(m.Digests()[i + 1]) == name && IsFirst(m.Digests(), i + 1)
  {
    var digests := m.Digests();
    DigestsAre(m);
    FileOfExactly(name, m.layers[i].digest);
    forall j | 0 <= j < i + 1
      ensures BlobName(digests[j]) != name
    {
      FileOfExactly(name, digests[j]);
      if j > 0 {
        assert m.layers[..i][j - 1] == m.layers[j - 1];
      }
    }
  }

  lemma BlobUrls(r: ImageReference)
    ensures forall digest ::
              BlobUrl(r, digest) == "https://" + r.registry + "/v2/" + r.repository + "/blobs/" + digest
  {
  }

  lemma SentIsAnswered(before: map<string, Bytes>, after: map<string, Bytes>, r: ImageReference, m: ImageManifest,
                       registry: Registry)
    requires HasPlainNames(m)
    requires var digests := m.Digests();
             Sent(AtFinalPath(before), digests, Answers(registry, r, digests), |digests|, AtFinalPath(after))
    ensures AsAnswered(before, after, r, m, registry)
  {
    var digests, blobs := m.Digests(), Answers(registry, r, m.Digests());
    DigestsAre(m);
    forall name | IsFileOf(name, m.config.digest) && name in after && name !in before
      ensures IsAnswer(after[name], registry.blobs(0, BlobUrl(r, m.config.digest)))
    {
      FileOfExactly(name, m.config.digest);
      PlainDigest(m, 0);
      assert IsFirst(digests, 0);
      assert blobs(0) == registry.blobs(0, BlobUrl(r, digests[0]));
    }
    forall i, name | 0 <= i < |m.layers| && IsFileOf(name, m.layers[i].digest) && name in after && name !in before
                     && !IsFileOf(name, m.config.digest) && !IsLayer(m.layers[..i], name)
      ensures IsAnswer(after[name], registry.blobs(i + 1, BlobUrl(r, m.layers[i].digest)))
    {
      FirstPlace(m, i, name);
      PlainDigest(m, i + 1);
      assert blobs(i + 1) == registry.blobs(i + 1, BlobUrl(r, digests[i + 1]));
    }
    BlobUrls(r);
  }

  // The paths of these layers, in their order.
  ghost predicate ArePathsOf(paths: seq<string>, layers: seq<Descriptor>) {
    && |paths| == |layers|
    && forall i, name :: 0 <= i < |layers| && IsFileOf(name, layers[i].digest) ==> paths[i] == "blobs/sha256/" + name
  }

  lemma PathOfLayer(digest: string)
    ensures LayerPath(digest) == "blobs/sha256/" + BlobName(digest) && IsFileOf(BlobName(digest), digest)
    ensures forall name :: IsFileOf(name, digest) ==> LayerPath(digest) == "blobs/sha256/" + name
  {
    FileOfExactly(BlobName(digest), digest);
    forall name | IsFileOf(name, digest)
      ensures name == BlobName(digest)
    {
      FileOfExactly(name, digest);
    }
  }

  lemma OneMoreLayer(layers: seq<Descriptor>, n: nat, name: string)
    requires n < |layers| && IsLayer(layers[..n + 1], name)
    ensures IsLayer(layers[..n], name) || name == BlobName(layers[n].digest)
  {
    var layer :| layer in layers[..n + 1] && IsFileOf(name, layer.digest);
    assert layers[..n + 1] == layers[..n] + [layers[n]];
    FileOfExactly(name, layer.digest);
  }

  lemma LayerIsThere(files: map<string, Bytes>, m: ImageManifest, i: nat)
    requires i < |m.layers|
    ensures HasBlobs(files, m) ==> BlobName(m.layers[i].digest) in files
    ensures IsLayer(m.layers, BlobName(m.layers[i].digest))
  {
    FileOfExactly(BlobName(m.layers[i].digest), m.layers[i].digest);
    assert m.layers[i] in m.layers;
  }

  lemma LegalAppend(hash: Hash, pulls: seq<Pull>, p: Pull)
    requires Legal(hash, pulls) && Step(hash, After(pulls, |pulls|), p)
    ensures Legal(hash, pulls + [p]) && After(pulls + [p], |pulls| + 1) == p.after
  {
    var more := pulls + [p];
    forall i | 0 <= i < |more|
      ensures StepAt(hash, more, i)
    {
      assert After(more, i) == After(pulls, i);
      if i < |pulls| {
        assert StepAt(hash, pulls, i);
      }
    }
  }

  class ImageStore {
    const hash: Hash

    // The blob directory, with the files being downloaded, and the manifests by path.
    var files: map<string, Bytes>
    var manifests: map<string, ManifestFile>

    ghost var pulls: seq<Pull>

    // How often a file operation has failed or a pull was cut off.
    ghost var faults: nat

    ghost function View(): Store
      reads this
    {
      Store(AtFinalPath(files), manifests)
    }

    ghost predicate Valid()
      reads this
    {
      Legal(hash, pulls) && View() == After(pulls, |pulls|)
    }

    constructor (hash: Hash)
      ensures Valid() && this.hash == hash && files == map[] && manifests == map[] && pulls == []
    {
      this.hash := hash;
      files, manifests, pulls, faults := map[], map[], [], 0;
    }

    // A download appears at its final path as a whole or not at all, and is then the concatenation of
    // all chunks of a stream that ended properly.
    method DownloadLayer(reference: ImageReference, digest: string, registry: Registry, number: nat, name: string)
      returns (r: Reply<()>)
      requires IsPlain(name)
      modifies this`files, this`faults
      ensures var reply := registry.blobs(number, BlobUrl(reference, digest));
              && (r.Success? ==>
                    && reply.Stream? && reply.complete
                    && AtFinalPath(files) == AtFinalPath(old(files))[name := Concat(reply.chunks)])
              && (r == Failure(DownloadFailed) ==> !Complete(reply))
      ensures !r.Success? ==> AtFinalPath(files) == AtFinalPath(old(files))
      ensures r.Failure? ==> r.error in {DownloadFailed, IoError}
      ensures faults >= old(faults)
      ensures faults == old(faults) ==> r.Success? || r == Failure(DownloadFailed)
    {
      var reply := registry.blobs(number, BlobUrl(reference, digest));
      if reply.Refused? {
        return Failure(DownloadFailed);
      }
      var part := PartName(name);
      assert part[|name|] == '.';
      ghost var before := AtFinalPath(files);
      var cut, fails := *, *;
      if cut || fails {
        faults := faults + 1;
        return if cut then Cut else Failure(IoError);
      }
      files := files[part := []];
      assert AtFinalPath(files) == before;
      for i := 0 to |reply.chunks|
        invariant AtFinalPath(files) == before && faults == old(faults)
        invariant part in files && files[part] == Concat(reply.chunks[..i])
      {
        cut, fails := *, *;
        if cut || fails {
          faults := faults + 1;
          return if cut then Cut else Failure(IoError);
        }
        files := files[part := files[part] + reply.chunks[i]];
        assert reply.chunks[..i + 1][..i] == reply.chunks[..i];
        assert AtFinalPath(files) == before;
      }
      if !reply.complete {
        return Failure(DownloadFailed);
      }
      cut, fails := *, *;
      if cut || fails {
        faults := faults + 1;
        return if cut then Cut else Failure(IoError);
      }
      assert reply.chunks[..|reply.chunks|] == reply.chunks;
      files := (files - {part})[name := files[part]];
      assert AtFinalPath(files) == before[name := Concat(reply.chunks)];
      r := Success(());
    }

    method VerifyDigest(name: string, digest: string) returns (r: Reply<()>)
      modifies this`faults
      ensures r.Success? ==> DIGEST_PREFIX <= digest && name in files && hash(files[name]) == digest[|DIGEST_PREFIX|..]
      ensures r == Failure(DigestMismatch) ==>
                DIGEST_PREFIX <= digest ==> name in files && hash(files[name]) != digest[|DIGEST_PREFIX|..]
      ensures r.Failure? ==> r.error in {DigestMismatch, IoError}
      ensures faults >= old(faults)
      ensures faults == old(faults) ==>
                (r.Success? <==>
                   DIGEST_PREFIX <= digest && name in files && hash(files[name]) == digest[|DIGEST_PREFIX|..])
      ensures faults == old(faults) && name in files ==> r == Success(()) || r == Failure(DigestMismatch)
    {
      if !(DIGEST_PREFIX <= digest) {
        return Failure(DigestMismatch);
      }
      if name !in files {
        return Failure(IoError);
      }
      var cut, fails := *, *;
      if cut || fails {
        faults := faults + 1;
        return if cut then Cut else Failure(IoError);
      }
      if hash(files[name]) != digest[|DIGEST_PREFIX|..] {
        return Failure(DigestMismatch);
      }
      return Success(());
    }

    predicate LayerExists(digest: string)
      reads this
    {
      BlobName(digest) in files
    }

    // Makes sure that a blob is there: it was, or it has been downloaded and verified. Otherwise this
    // blob alone may have been added unverified, and if it is rejected it has been.
    method FetchBlob(reference: ImageReference, digest: string, registry: Registry, number: nat) returns (r: Reply<()>)
      requires IsPlain(BlobName(digest))
      modifies this`files, this`faults
      ensures var reply := registry.blobs(number, BlobUrl(reference, digest));
              && Fetches(hash, AtFinalPath(old(files)), digest, reply, r, AtFinalPath(files))
              && (faults == old(faults) ==>
                    r == if BlobName(digest) in AtFinalPath(old(files)) || Genuine(hash, digest, reply) then Success(())
                         else Failure(if Complete(reply) then DigestMismatch else DownloadFailed))
      ensures BlobName(digest) in old(files) ==> files == old(files)
      ensures faults >= old(faults)
    {
      if LayerExists(digest) {
        return Success(());
      }
      var name := BlobName(digest);
      r := DownloadLayer(reference, digest, registry, number, name);
      if !r.Success? {
        return;
      }
      assert name in AtFinalPath(files);
      r := VerifyDigest(name, digest);
    }

    // Blob number `n` of those with these digests, once the ones before it have been fetched.
    method FetchNext(reference: ImageReference, digest: string, registry: Registry, n: nat, ghost before: Blobs,
                     ghost digests: seq<string>)
      returns (r: Reply<()>)
      requires n < |digests| && digest == digests[n] && IsPlain(BlobName(digest))
      requires Fetched(hash, before, digests, Answers(registry, reference, digests), n, AtFinalPath(files))
      modifies this`files, this`faults
      ensures var blobs := Answers(registry, reference, digests);
              && (r.Success? ==> Fetched(hash, before, digests, blobs, n + 1, AtFinalPath(files)))
              && (!r.Success? ==> FetchesAll(hash, before, digests, blobs, r, AtFinalPath(files)))
      ensures faults >= old(faults)
      ensures faults == old(faults) ==> r != Cut && r != Failure(IoError)
    {
      ghost var now, blobs := AtFinalPath(files), Answers(registry, reference, digests);
      r := FetchBlob(reference, digest, registry, n);
      if r.Success? {
        FetchedOneMore(hash, before, digests, blobs, n, now, AtFinalPath(files));
      } else {
        FetchedNoMore(hash, before, digests, blobs, n, now, r, AtFinalPath(files));
      }
    }

    // The configuration, then the layers in order. `digests` are theirs.
    method FetchBlobs(reference: ImageReference, m: ImageManifest, registry: Registry, ghost digests: seq<string>)
      returns (r: Reply<()>)
      requires |digests| == |m.layers| + 1 && digests[0] == m.config.digest
      requires forall i :: 0 <= i < |m.layers| ==> digests[i + 1] == m.layers[i].digest
      requires forall i :: 0 <= i < |digests| ==> IsPlain(BlobName(digests[i]))
      modifies this`files, this`faults
      ensures FetchesAll(hash, AtFinalPath(old(files)), digests, Answers(registry, reference, digests), r,
                         AtFinalPath(files))
      ensures faults >= old(faults)
      ensures faults == old(faults) ==> r != Cut && r != Failure(IoError)
    {
      ghost var before, blobs := AtFinalPath(files), Answers(registry, reference, digests);
      NothingFetched(hash, before, digests, blobs);
      r := FetchNext(reference, m.config.digest, registry, 0, before, digests);
      if !r.Success? {
        return;
      }
      for i := 0 to |m.layers|
        invariant Fetched(hash, before, digests, blobs, i + 1, AtFinalPath(files))
        invariant faults >= old(faults)
      {
        r := FetchNext(reference, m.layers[i].digest, registry, i + 1, before, digests);
        if !r.Success? {
          return;
        }
      }
      AllFetched(hash, before, digests, blobs, AtFinalPath(files));
      r := Success(());
    }

    method SaveManifest(reference: ImageReference, m: ImageManifest) returns (r: Reply<()>, ghost save: Save)
      modifies this`manifests, this`faults
      ensures manifests == match save
        case NotReached => old(manifests)
        case Interrupted => old(manifests)[ManifestPath(reference) := Torn]
        case Written => old(manifests)[ManifestPath(reference) := Saved(m)]
      ensures r.Success? ==> save == Written
      ensures r.Failure? ==> r.error == IoError
      ensures faults == if r.Success? then old(faults) else old(faults) + 1
    {
      var path := ManifestPath(reference);
      var fails, torn, late, cut := *, *, *, *;
      if fails || late {
        faults := faults + 1;
      }
      if fails {
        if torn {
          manifests := manifests[path := Torn];
        }
        return if cut then Cut else Failure(IoError), if torn then Interrupted else NotReached;
      }
      manifests := manifests[path := Saved(m)];
      return if late then Cut else Success(()), Written;
    }

    // `readable` says whether the file can be read, if it is there.
    method LoadManifest(reference: ImageReference, readable: bool) returns (r: Reply<ImageManifest>)
      ensures var path := ManifestPath(reference);
              if path !in manifests || manifests[path] == Torn then r == Failure(ManifestMissing)
              else if !readable then r == Failure(IoError)
              else r.Success? && manifests[path] == Saved(r.value)
    {
      var path := ManifestPath(reference);
      if path !in manifests || manifests[path] == Torn {
        return Failure(ManifestMissing);
      }
      return if readable then Success(manifests[path].manifest) else Failure(IoError);
    }

    ghost method Append(p: Pull)
      requires Legal(hash, pulls) && Step(hash, After(pulls, |pulls|), p) && p.after == View()
      modifies this`pulls
      ensures Valid() && pulls == old(pulls) + [p]
    {
      LegalAppend(hash, pulls, p);
      pulls := pulls + [p];
    }

    // The blobs of an image, once its manifest is known.
    method FetchImage(reference: ImageReference, m: ImageManifest, registry: Registry) returns (r: Reply<()>)
      requires HasPlainNames(m)
      modifies this`files, this`faults
      ensures Grows(AtFinalPath(old(files)), AtFinalPath(files), m.Names())
      ensures |Bad(hash, AtFinalPath(files)) - Bad(hash, AtFinalPath(old(files)))| <= 1
      ensures AsAnswered(old(files), files, reference, m, registry)
      ensures r.Success? ==>
                && m.Names() <= AtFinalPath(files).Keys && HasBlobs(files, m)
                && Bad(hash, AtFinalPath(files)) == Bad(hash, AtFinalPath(old(files)))
      ensures r.Failure? && r.error != IoError ==>
                var digests := m.Digests();
                exists n :: FailsAt(hash, AtFinalPath(old(files)), digests, Answers(registry, reference, digests), n,
                                    r, AtFinalPath(files))
      ensures faults >= old(faults)
      ensures faults == old(faults) ==>
                var digests := m.Digests();
                && r != Cut && r != Failure(IoError)
                && (r.Success? <==>
                      AllProvided(hash, AtFinalPath(old(files)), digests, Answers(registry, reference, digests)))
    {
      DigestsAre(m);
      forall i | 0 <= i < |m.Digests()|
        ensures IsPlain(BlobName(m.Digests()[i]))
      {
        PlainDigest(m, i);
      }
      r := FetchBlobs(reference, m, registry, m.Digests());
      ghost var before, blobs := AtFinalPath(old(files)), Answers(registry, reference, m.Digests());
      SucceedsIfProvided(hash, before, m.Digests(), blobs, r, AtFinalPath(files));
      SentIsAnswered(old(files), files, reference, m, registry);
      if r.Success? {
        AllNamesFetched(hash, before, m, blobs, AtFinalPath(files));
        NamesAreBlobs(files, m);
      }
    }

    method PullBlobs(reference: ImageReference, m: ImageManifest, registry: Registry)
      returns (r: Reply<ImageManifest>, ghost p: Pull)
      requires Valid() && HasPlainNames(m)
      modifies this`files, this`manifests, this`pulls, this`faults
      ensures Valid() && pulls == old(pulls) + [p]
      ensures p.reference == reference && p.ok == r.Success? && p.manifest == Some(m)
      ensures r.Success? ==>
                && r.value == m
                && ManifestPath(reference) in manifests && manifests[ManifestPath(reference)] == Saved(m)
                && HasBlobs(files, m)
                && NewAreGood(hash, old(View()).blobs, View().blobs)
      ensures AsAnswered(old(files), files, reference, m, registry)
      ensures Grows(AtFinalPath(old(files)), AtFinalPath(files), m.Names())
      ensures r.Failure? ==> r.error in {DigestMismatch, DownloadFailed, IoError}
      ensures r.Failure? && r.error in {DigestMismatch, DownloadFailed} ==>
                var digests := m.Digests();
                exists n :: FailsAt(hash, AtFinalPath(old(files)), digests, Answers(registry, reference, digests), n,
                                    Failure(r.error), AtFinalPath(files))
      ensures faults == old(faults) ==>
                var digests := m.Digests();
                && r != Cut && r != Failure(IoError)
                && (r.Success? <==>
                      AllProvided(hash, AtFinalPath(old(files)), digests, Answers(registry, reference, digests)))
      ensures faults >= old(faults)
    {
      var fetched := FetchImage(reference, m, registry);
      ghost var save := NotReached;
      if fetched.Success? {
        NoNewBad(hash, AtFinalPath(old(files)), AtFinalPath(files));
        fetched, save := SaveManifest(reference, m);
      }
      p := Pull(reference, Some(m), save, fetched.Success?, View());
      Append(p);
      match fetched
      case Success(_) => r := Success(m);
      case Failure(e) => r := Failure(e);
      case Cut => r := Cut;
    }

    // Whatever happens, the pull is a legal one, so the theorems about sequences of pulls hold of the
    // store afterwards.
    method PullImage(reference: ImageReference, registry: Registry) returns (r: Reply<ImageManifest>, ghost p: Pull)
      requires Valid()
      requires var found := registry.manifest(ManifestUrl(reference)); found.Some? ==> HasPlainNames(found.value)
      modifies this`files, this`manifests, this`pulls, this`faults
      ensures Valid() && pulls == old(pulls) + [p]
      ensures p.reference == reference && p.ok == r.Success?
      ensures var url := "https://" + reference.registry + "/v2/" + reference.repository + "/manifests/"
                         + reference.reference;
              p.manifest == if registry.authenticates then registry.manifest(url) else None
      // Success saves the manifest, with all its blobs there and none of the new ones bad.
      ensures r.Success? ==>
                && p.manifest == Some(r.value)
                && reference.repository + "/" + reference.reference in manifests
                && manifests[reference.repository + "/" + reference.reference] == Saved(r.value)
                && HasBlobs(files, r.value)
                && NewAreGood(hash, old(View()).blobs, View().blobs)
      ensures p.manifest.Some? ==> AsAnswered(old(files), files, reference, p.manifest.value, registry)
      ensures r == Failure(NotAuthenticated) <==> !registry.authenticates
      ensures r == Failure(NoManifest) <==> registry.authenticates && p.manifest.None?
      ensures p.manifest.Some? ==> Grows(AtFinalPath(old(files)), AtFinalPath(files), p.manifest.value.Names())
      // A pull is refused at the first blob that is not provided; a rejected download stays in the store.
      ensures r.Failure? && r.error in {DigestMismatch, DownloadFailed} ==>
                var digests := p.manifest.value.Digests();
                exists n :: FailsAt(hash, AtFinalPath(old(files)), digests, Answers(registry, reference, digests), n,
                                    Failure(r.error), AtFinalPath(files))
      ensures faults == old(faults) && p.manifest.Some? ==>
                var digests := p.manifest.value.Digests();
                && (r.Success? || (r.Failure? && r.error in {DigestMismatch, DownloadFailed}))
                && (r.Success? <==>
                      AllProvided(hash, AtFinalPath(old(files)), digests, Answers(registry, reference, digests)))
      ensures faults >= old(faults)
      // A registry that sends what the manifest says is always pulled from.
      ensures p.manifest.Some? ==>
                var m := p.manifest.value;
                AllGenuine(hash, m, Answers(registry, reference, m.Digests())) ==> r.Success? || faults > old(faults)
    {
      if !registry.authenticates {
        p := Pull(reference, None, NotReached, false, View());
        Append(p);
        return Failure(NotAuthenticated), p;
      }
      match registry.manifest(ManifestUrl(reference))
      case None =>
        p := Pull(reference, None, NotReached, false, View());
        Append(p);
        return Failure(NoManifest), p;
      case Some(m) =>
        r, p := PullBlobs(reference, m, registry);
    }

    ghost predicate WithoutSlashes(reference: ImageReference)
      reads this
    {
      Valid() && '/' !in reference.reference && forall p <- pulls :: '/' !in p.reference.reference
    }

    lemma SavedLastIsRead(reference: ImageReference)
      ensures WithoutSlashes(reference) ==>
                forall k: nat :: LastToSave(pulls, k, reference) ==>
                  && pulls[k].manifest.Some? && ManifestPath(reference) in manifests
                  && manifests[ManifestPath(reference)] == Saved(pulls[k].manifest.value)
    {
      if WithoutSlashes(reference) {
        forall k: nat | LastToSave(pulls, k, reference)
          ensures pulls[k].manifest.Some? && ManifestPath(reference) in manifests
          ensures manifests[ManifestPath(reference)] == Saved(pulls[k].manifest.value)
        {
          LastSaveIsRead(hash, pulls, k, reference);
        }
      }
    }

    // The paths of the layers of a pulled image, bottom first. A store that was only changed by pulls
    // never misses a layer of a saved manifest.
    method GetImageLayers(reference: ImageReference, readable: bool) returns (r: Reply<seq<string>>)
      ensures var path := reference.repository + "/" + reference.reference;
              if path !in manifests || manifests[path] == Torn then r == Failure(ManifestMissing)
              else if !readable then r == Failure(IoError)
              else
                var layers := manifests[path].manifest.layers;
                if r.Success? then ArePathsOf(r.value, layers) && forall name :: IsLayer(layers, name) ==> name in files
                else
                  && r.Failure? && r.error.LayerMissing?
                  && exists name :: IsLayer(layers, name) && name !in files && r.error.path == "blobs/sha256/" + name
      ensures Valid() ==> !(r.Failure? && r.error.LayerMissing?)
      // They are the layers of the last pull that saved a manifest of the same repository and reference.
      ensures readable && WithoutSlashes(reference) ==>
                forall k: nat :: LastToSave(pulls, k, reference) ==>
                  pulls[k].manifest.Some? && r.Success? && ArePathsOf(r.value, pulls[k].manifest.value.layers)
    {
      SavedLastIsRead(reference);
      var loaded := LoadManifest(reference, readable);
      match loaded
      case Failure(e) => return Failure(e);
      case Cut => return Cut;
      case Success(m) =>
        if Valid() {
          SavedManifestsAreComplete(hash, pulls, |pulls|, ManifestPath(reference));
        }
        var paths := [];
        for i := 0 to |m.layers|
          invariant ArePathsOf(paths, m.layers[..i])
        {
          PathOfLayer(m.layers[i].digest);
          paths := paths + [LayerPath(m.layers[i].digest)];
        }
        assert m.layers[..|m.layers|] == m.layers;
        for i := 0 to |m.layers|
          invariant forall name :: IsLayer(m.layers[..i], name) ==> name in files
        {
          LayerIsThere(AtFinalPath(files), m, i);
          PathOfLayer(m.layers[i].digest);
          if !LayerExists(m.layers[i].digest) {
            return Failure(LayerMissing(paths[i]));
          }
          forall name | IsLayer(m.layers[..i + 1], name)
            ensures name in files
          {
            OneMoreLayer(m.layers, i, name);
          }
        }
        r := Success(paths);
    }
  }

  // ------------------------------------------------------------------ rejected once, accepted the next time

  // A blob rejected as not genuine is bad for as long as blobs only grow.
  lemma RejectedStaysBad(hash: Hash, before: Blobs, m: ImageManifest, blobs: nat -> BlobReply, n: nat, between: Blobs,
                         after: Blobs)
    requires FailsAt(hash, before, m.Digests(), blobs, n, Failure(DigestMismatch), between)
    requires DIGEST_PREFIX <= m.Digests()[n] && Grows(between, after, m.Names())
    ensures var name := BlobName(m.Digests()[n]);
            name in m.Names() && name in after && hash(after[name]) != name
  {
    assert m.Digests()[n] in m.Digests();
  }

  // After a pull whose download was rejected, a pull of the same manifest succeeds, and leaves an image
  // with a blob that does not hash to its name, even if the registry now sends what the manifest says.
  method PullAgain(store: ImageStore, reference: ImageReference, m: ImageManifest, first: Registry, second: Registry)
    returns (r1: Reply<ImageManifest>, r2: Reply<ImageManifest>)
    requires store.Valid() && HasPlainNames(m)
    requires AllGenuine(store.hash, m, Answers(second, reference, m.Digests()))
    requires first.authenticates && second.authenticates
    requires first.manifest(ManifestUrl(reference)) == second.manifest(ManifestUrl(reference)) == Some(m)
    modifies store
    ensures store.Valid() && store.faults >= old(store.faults)
    ensures store.faults == old(store.faults) && r1 == Failure(DigestMismatch) ==>
              && r2 == Success(m)
              && exists name <- m.Names() :: name in store.View().blobs && store.hash(store.View().blobs[name]) != name
  {
    ghost var p1, p2;
    ghost var before := AtFinalPath(store.files);
    r1, p1 := store.PullImage(reference, first);
    ghost var between := AtFinalPath(store.files);
    r2, p2 := store.PullImage(reference, second);
    if r1 == Failure(DigestMismatch) {
      ghost var blobs := Answers(first, reference, m.Digests());
      ghost var n: nat :| FailsAt(store.hash, before, m.Digests(), blobs, n, Failure(DigestMismatch), between);
      assert Genuine(store.hash, m.Digests()[n], Answers(second, reference, m.Digests())(n));
      RejectedStaysBad(store.hash, before, m, blobs, n, between, AtFinalPath(store.files));
    }
  }

  // And that does happen: with any content that does not hash to its name.
  method BadImageIsReachable(hash: Hash, reference: ImageReference, name: string, content: Bytes)
    returns (store: ImageStore, r1: Reply<ImageManifest>, r2: Reply<ImageManifest>)
    requires IsPlain(name) && hash(content) != name
    ensures fresh(store) && store.Valid() && store.hash == hash
    ensures store.faults == 0 ==>
              && r1 == Failure(DigestMismatch) && r2.Success?
              && r2.value.Names() == {name}
              && name in store.View().blobs && store.View().blobs[name] == content
  {
    var m := ImageManifest(Descriptor("", DIGEST_PREFIX + name, |content|), []);
    var registry := Registry(true, (_: string) => Some(m), (_: nat, _: string) => Stream([content], true));
    assert m.Digests() == [DIGEST_PREFIX + name] && BlobName(DIGEST_PREFIX + name) == name;
    assert m.Names() == {name};
    assert Concat([content]) == content;
    ghost var p1, p2;
    store := new ImageStore(hash);
    ghost var blobs := Answers(registry, reference, m.Digests());
    assert !Genuine(hash, m.Digests()[0], blobs(0));
    assert !Provided(hash, AtFinalPath(store.files), m.Digests(), blobs, 0);
    r1, p1 := store.PullImage(reference, registry);
    r2, p2 := store.PullImage(reference, registry);
  }
}

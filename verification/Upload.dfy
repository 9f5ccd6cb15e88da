/** Uploading a folder to S3 and taking it back (internal/s3/upload.go, internal/s3/rollback.go,
    and the apply step of internal/cli/runtime_s3.go).  One call here is a call with all its
    retries; a call that fails has no effect, and a bucket gives fresh version and upload IDs. */
module Upload {
  import opened Options

  /** 0 stands for the empty version ID of an unversioned bucket. */
  type VersionID = nat

  datatype ObjectVersion = ObjectVersion(key: string, version: VersionID)
  datatype Pending = Pending(key: string, parts: map<nat, string>)

  datatype UploadOptions = UploadOptions(multipartThreshold: int, partSize: int)

  /** A source file with its object key, none when its relative path is invalid. */
  datatype SourceFile = SourceFile(key: Option<string>, content: string)

  // ------------------------------------------------------------------- parts

  function Min(a: int, b: int): int {
    if a < b then a else b
  }

  /** The consecutive parts of the content from `offset` on. */
  function Parts(content: string, partSize: nat, offset: nat): seq<string>
    requires partSize > 0
    decreases |content| - offset
  {
    if offset >= |content| then []
    else [content[offset..Min(offset + partSize, |content|)]] + Parts(content, partSize, offset + partSize)
  }

  /** The listed parts put together. */
  function Assemble(parts: map<nat, string>, numbers: seq<nat>, n: nat): string
    requires n <= |numbers|
  {
    if n == 0 then []
    else Assemble(parts, numbers, n - 1) + if numbers[n - 1] in parts then parts[numbers[n - 1]] else []
  }

  /** The parts tile the content: all but the last have the part size, the last is not empty,
      and there are as many as the size divided by the part size, rounded up. */
  lemma {:induction false} PartsTile(content: string, partSize: nat, offset: nat)
    requires partSize > 0 && offset <= |content|
    ensures var parts := Parts(content, partSize, offset);
            && (|parts| - 1) * partSize < |content| - offset <= |parts| * partSize
            && (forall i :: 0 <= i < |parts| ==> 1 <= |parts[i]| <= partSize)
            && forall i :: 0 <= i < |parts| - 1 ==> |parts[i]| == partSize
    decreases |content| - offset
  {
    if offset + partSize < |content| {
      PartsTile(content, partSize, offset + partSize);
      var rest := |Parts(content, partSize, offset + partSize)|;
      assert (rest + 1) * partSize == rest * partSize + partSize == (rest - 1) * partSize + partSize + partSize;
    } else if offset < |content| {
      assert Parts(content, partSize, offset + partSize) == [];
    }
  }

  lemma {:induction false} AssembleAgrees(a: map<nat, string>, b: map<nat, string>, ns: seq<nat>, ms: seq<nat>, n: nat)
    requires n <= |ns| && n <= |ms| && forall i :: 0 <= i < n ==> ns[i] == ms[i]
    requires forall i :: 0 <= i < n ==> (ns[i] in a <==> ns[i] in b) && (ns[i] in a ==> a[ns[i]] == b[ns[i]])
    ensures Assemble(a, ns, n) == Assemble(b, ms, n)
  {
    if n > 0 {
      AssembleAgrees(a, b, ns, ms, n - 1);
    }
  }

  // ------------------------------------------------------------------ bucket

  class Bucket {
    const versioned: bool
    var objects: map<ObjectVersion, string>
    var uploads: map<nat, Pending>
    var next: nat

    ghost predicate Valid()
      reads this
    {
      && next > 0
      && (forall o :: o in objects ==> o.version < next)
      && forall u :: u in uploads ==> u < next
    }

    constructor (versioned: bool)
      ensures Valid() && this.versioned == versioned && objects == map[]
    {
      this.versioned, objects, uploads, next := versioned, map[], map[], 1;
    }

    method PutObject(key: string, body: string) returns (version: Option<VersionID>)
      requires Valid()
      modifies this
      ensures Valid() && next >= old(next) && uploads == old(uploads)
      ensures version.None? ==> objects == old(objects)
      ensures version.Some? ==> objects == old(objects)[ObjectVersion(key, version.value) := body]
      ensures version.Some? ==> if versioned then version.value == old(next) < next else version.value == 0
    {
      var fails: bool := *;
      if fails {
        return None;
      }
      var v := if versioned then next else 0;
      objects, next := objects[ObjectVersion(key, v) := body], next + 1;
      return Some(v);
    }

    method CreateMultipart(key: string) returns (uploadID: Option<nat>)
      requires Valid()
      modifies this
      ensures Valid() && next >= old(next) && objects == old(objects)
      ensures uploadID.None? ==> uploads == old(uploads)
      ensures uploadID.Some? ==>
                uploadID.value == old(next) < next && uploads == old(uploads)[uploadID.value := Pending(key, map[])]
    {
      var fails: bool := *;
      if fails {
        return None;
      }
      uploadID := Some(next);
      uploads, next := uploads[next := Pending(key, map[])], next + 1;
    }

    method UploadPart(uploadID: nat, number: nat, body: string) returns (ok: bool)
      requires Valid() && uploadID in uploads
      modifies this
      ensures Valid() && next == old(next) && objects == old(objects)
      ensures !ok ==> uploads == old(uploads)
      ensures ok ==> var before := old(uploads)[uploadID];
                     uploads == old(uploads)[uploadID := before.(parts := before.parts[number := body])]
    {
      var fails: bool := *;
      if fails {
        return false;
      }
      uploads := uploads[uploadID := uploads[uploadID].(parts := uploads[uploadID].parts[number := body])];
      ok := true;
    }

    method CompleteMultipart(uploadID: nat, numbers: seq<nat>) returns (version: Option<VersionID>)
      requires Valid() && uploadID in uploads
      modifies this
      ensures Valid() && next >= old(next)
      ensures version.None? ==> objects == old(objects) && uploads == old(uploads)
      ensures version.Some? ==>
                && objects == old(objects)[ObjectVersion(old(uploads)[uploadID].key, version.value) :=
                                             Assemble(old(uploads)[uploadID].parts, numbers, |numbers|)]
                && uploads == old(uploads) - {uploadID}
                && if versioned then version.value == old(next) < next else version.value == 0
    {
      var fails: bool := *;
      if fails {
        return None;
      }
      var v := if versioned then next else 0;
      var upload := uploads[uploadID];
      objects := objects[ObjectVersion(upload.key, v) := Assemble(upload.parts, numbers, |numbers|)];
      uploads, next := uploads - {uploadID}, next + 1;
      return Some(v);
    }

    method AbortMultipart(uploadID: nat) returns (ok: bool)
      requires Valid()
      modifies this
      ensures Valid() && next == old(next) && objects == old(objects)
      ensures uploads == if ok then old(uploads) - {uploadID} else old(uploads)
    {
      ok := *;
      if ok {
        uploads := uploads - {uploadID};
      }
    }

    /** Deletes one version for good. */
    method DeleteObject(key: string, version: VersionID) returns (ok: bool)
      requires Valid()
      modifies this
      ensures Valid() && next == old(next) && uploads == old(uploads)
      ensures objects == if ok then old(objects) - {ObjectVersion(key, version)} else old(objects)
    {
      ok := *;
      if ok {
        objects := objects - {ObjectVersion(key, version)};
      }
    }
  }

  // ------------------------------------------------------------------ upload

  /** The parts sent so far: consecutive numbers from 1, together the content up to `offset`. */
  ghost predicate Sent(content: string, partSize: nat, parts: map<nat, string>, numbers: seq<nat>, offset: nat,
                       pieces: seq<string>)
    requires partSize > 0
  {
    && (forall i :: 0 <= i < |numbers| ==> numbers[i] == i + 1)
    && Assemble(parts, numbers, |numbers|) == content[..Min(offset, |content|)]
    && |pieces| == |numbers| && pieces + Parts(content, partSize, offset) == Parts(content, partSize, 0)
    && forall i :: 0 <= i < |pieces| ==> numbers[i] in parts && parts[numbers[i]] == pieces[i]
  }

  lemma SliceExtends(content: string, offset: nat, end: nat)
    requires offset <= end <= |content|
    ensures content[..end] == content[..offset] + content[offset..end]
  {
  }

  lemma ConcatAssociates(a: seq<string>, b: seq<string>, c: seq<string>)
    ensures (a + b) + c == a + (b + c)
  {
  }

  lemma SendsOneMore(content: string, partSize: nat, parts: map<nat, string>, numbers: seq<nat>, offset: nat,
                     pieces: seq<string>)
    requires partSize > 0 && offset < |content| && Sent(content, partSize, parts, numbers, offset, pieces)
    ensures var number, body := |numbers| + 1, content[offset..Min(offset + partSize, |content|)];
            Sent(content, partSize, parts[number := body], numbers + [number], offset + partSize, pieces + [body])
  {
    var number, body := |numbers| + 1, content[offset..Min(offset + partSize, |content|)];
    AssembleAgrees(parts, parts[number := body], numbers, numbers + [number], |numbers|);
    SliceExtends(content, offset, Min(offset + partSize, |content|));
    ConcatAssociates(pieces, [body], Parts(content, partSize, offset + partSize));
  }

  lemma NothingSent(content: string, partSize: nat)
    requires partSize > 0
    ensures Sent(content, partSize, map[], [], 0, [])
  {
  }

  lemma AllSent(content: string, partSize: nat, parts: map<nat, string>, numbers: seq<nat>, offset: nat,
                pieces: seq<string>)
    requires partSize > 0 && offset >= |content| && Sent(content, partSize, parts, numbers, offset, pieces)
    ensures pieces == Parts(content, partSize, 0) && Assemble(parts, numbers, |numbers|) == content
    ensures |numbers| == |pieces| && forall i :: 0 <= i < |numbers| ==> numbers[i] == i + 1
  {
    assert content[..|content|] == content && Parts(content, partSize, offset) == [];
  }

  /** The part loop: parts that tile the content, under the numbers from 1. */
  method SendParts(bucket: Bucket, uploadID: nat, content: string, partSize: nat)
    returns (ok: bool, numbers: seq<nat>, ghost pieces: seq<string>)
    requires bucket.Valid() && partSize > 0 && uploadID in bucket.uploads && bucket.uploads[uploadID].parts == map[]
    modifies bucket
    ensures bucket.Valid() && bucket.next == old(bucket.next) && bucket.objects == old(bucket.objects)
    ensures uploadID in bucket.uploads && bucket.uploads == old(bucket.uploads)[uploadID := bucket.uploads[uploadID]]
    ensures bucket.uploads[uploadID].key == old(bucket.uploads)[uploadID].key
    ensures ok ==> pieces == Parts(content, partSize, 0)
    ensures ok ==> Assemble(bucket.uploads[uploadID].parts, numbers, |numbers|) == content
    ensures ok ==> |numbers| == |pieces| && forall i :: 0 <= i < |numbers| ==> numbers[i] == i + 1
  {
    hide Sent, Assemble, Parts;
    numbers, pieces := [], [];
    ghost var parts: map<nat, string> := map[];
    NothingSent(content, partSize);
    ghost var uploads, key := bucket.uploads, bucket.uploads[uploadID].key;
    var partNumber, offset := 1, 0;
    while offset < |content|
      invariant bucket.Valid() && bucket.next == old(bucket.next) && bucket.objects == old(bucket.objects)
      invariant bucket.uploads == uploads[uploadID := Pending(key, parts)] && partNumber == |numbers| + 1
      invariant Sent(content, partSize, parts, numbers, offset, pieces)
      decreases |content| - offset
    {
      var length := Min(partSize, |content| - offset);
      SendsOneMore(content, partSize, parts, numbers, offset, pieces);
      ok := bucket.UploadPart(uploadID, partNumber, content[offset..offset + length]);
      if !ok {
        return;
      }
      parts := parts[partNumber := content[offset..offset + length]];
      pieces := pieces + [content[offset..offset + length]];
      numbers := numbers + [partNumber];
      partNumber, offset := partNumber + 1, offset + partSize;
    }
    AllSent(content, partSize, parts, numbers, offset, pieces);
    ok := true;
  }

  /** On success the object is exactly the content, put together from the parts sent; on failure
      no object has changed. */
  method UploadMultipart(bucket: Bucket, key: string, content: string, partSize: nat)
    returns (version: Option<VersionID>, ghost pieces: seq<string>)
    requires bucket.Valid() && partSize > 0
    modifies bucket
    ensures bucket.Valid() && bucket.next >= old(bucket.next)
    ensures version.None? ==> bucket.objects == old(bucket.objects)
    ensures version.Some? ==> bucket.objects == old(bucket.objects)[ObjectVersion(key, version.value) := content]
    ensures version.Some? ==>
              if bucket.versioned then old(bucket.next) <= version.value < bucket.next else version.value == 0
    ensures version.Some? ==> pieces == Parts(content, partSize, 0) && bucket.uploads == old(bucket.uploads)
  {
    pieces := [];
    var created := bucket.CreateMultipart(key);
    if created.None? {
      return None, pieces;
    }
    var uploadID := created.value;
    var ok, numbers;
    ok, numbers, pieces := SendParts(bucket, uploadID, content, partSize);
    version := None;
    if ok {
      version := bucket.CompleteMultipart(uploadID, numbers);
    }
    if version.None? {
      var aborted := bucket.AbortMultipart(uploadID);
    }
  }

  method UploadFile(bucket: Bucket, key: string, content: string,
                    options: UploadOptions) returns (version: Option<VersionID>)
    requires bucket.Valid() && options.partSize > 0
    modifies bucket
    ensures bucket.Valid() && bucket.next >= old(bucket.next)
    ensures version.None? ==> bucket.objects == old(bucket.objects)
    ensures version.Some? ==> bucket.objects == old(bucket.objects)[ObjectVersion(key, version.value) := content]
    ensures version.Some? ==>
              if bucket.versioned then old(bucket.next) <= version.value < bucket.next else version.value == 0
  {
    if |content| >= options.multipartThreshold {
      ghost var pieces;
      version, pieces := UploadMultipart(bucket, key, content, options.partSize);
    } else {
      version := bucket.PutObject(key, content);
    }
  }

  /** The bucket after the first `n` files have been uploaded as these objects. */
  function Holding(objects: map<ObjectVersion, string>, uploaded: seq<ObjectVersion>, files: seq<SourceFile>, n: nat)
    : map<ObjectVersion, string>
    requires n <= |uploaded| && n <= |files|
  {
    if n == 0 then objects else Holding(objects, uploaded, files, n - 1)[uploaded[n - 1] := files[n - 1].content]
  }

  /** The uploaded objects are the keys of the first files, in order. */
  ghost predicate UploadedPrefix(uploaded: seq<ObjectVersion>, files: seq<SourceFile>) {
    |uploaded| <= |files| && forall i :: 0 <= i < |uploaded| ==> files[i].key == Some(uploaded[i].key)
  }

  /** Versions given out between two counts, each once. */
  ghost predicate FreshVersions(uploaded: seq<ObjectVersion>, low: nat, high: nat) {
    && (forall i :: 0 <= i < |uploaded| ==> low <= uploaded[i].version < high)
    && forall i, j :: 0 <= i < j < |uploaded| ==> uploaded[i].version < uploaded[j].version
  }

  ghost predicate Numbered(versioned: bool, uploaded: seq<ObjectVersion>, low: nat, high: nat) {
    if versioned then FreshVersions(uploaded, low, high)
    else forall i :: 0 <= i < |uploaded| ==> uploaded[i].version == 0
  }

  lemma NumberedLater(versioned: bool, uploaded: seq<ObjectVersion>, low: nat, mid: nat, high: nat)
    requires Numbered(versioned, uploaded, low, mid) && mid <= high
    ensures Numbered(versioned, uploaded, low, high)
  {
  }

  lemma NothingUploaded(objects: map<ObjectVersion, string>, files: seq<SourceFile>, versioned: bool, low: nat)
    ensures UploadedPrefix([], files) && Numbered(versioned, [], low, low) && Holding(objects, [], files, 0) == objects
  {
  }

  lemma OneMoreUploaded(objects: map<ObjectVersion, string>, uploaded: seq<ObjectVersion>, o: ObjectVersion,
                        files: seq<SourceFile>, versioned: bool, low: nat, mid: nat, high: nat)
    requires UploadedPrefix(uploaded, files) && Numbered(versioned, uploaded, low, mid) && low <= mid
    requires |uploaded| < |files| && files[|uploaded|].key == Some(o.key)
    requires if versioned then mid <= o.version < high else o.version == 0
    ensures UploadedPrefix(uploaded + [o], files) && Numbered(versioned, uploaded + [o], low, high)
    ensures Holding(objects, uploaded + [o], files, |uploaded| + 1)
            == Holding(objects, uploaded, files, |uploaded|)[o := files[|uploaded|].content]
  {
    HoldingAgrees(objects, uploaded, uploaded + [o], files, |uploaded|);
  }

  /** What is returned is exactly what has been uploaded, whole, and that is all that changed;
      without an error it is everything. */
  method UploadFiles(bucket: Bucket, files: seq<SourceFile>, options: UploadOptions)
    returns (ok: bool, uploaded: seq<ObjectVersion>)
    requires bucket.Valid()
    modifies bucket
    ensures bucket.Valid() && UploadedPrefix(uploaded, files)
    ensures ok ==> |uploaded| == |files|
    ensures bucket.objects == Holding(old(bucket.objects), uploaded, files, |uploaded|)
    ensures Numbered(bucket.versioned, uploaded, old(bucket.next), bucket.next)
  {
    hide Holding, UploadedPrefix, Numbered;
    uploaded := [];
    NothingUploaded(bucket.objects, files, bucket.versioned, bucket.next);
    if options.multipartThreshold <= 0 || options.partSize <= 0 {
      return false, uploaded;
    }
    ghost var objects, first := bucket.objects, bucket.next;
    for i := 0 to |files|
      invariant bucket.Valid() && first <= bucket.next && |uploaded| == i && UploadedPrefix(uploaded, files)
      invariant bucket.objects == Holding(objects, uploaded, files, i)
      invariant Numbered(bucket.versioned, uploaded, first, bucket.next)
    {
      ghost var next := bucket.next;
      if files[i].key.None? {
        return false, uploaded;
      }
      var version := UploadFile(bucket, files[i].key.value, files[i].content, options);
      NumberedLater(bucket.versioned, uploaded, first, next, bucket.next);
      if version.None? {
        return false, uploaded;
      }
      var o := ObjectVersion(files[i].key.value, version.value);
      OneMoreUploaded(objects, uploaded, o, files, bucket.versioned, first, next, bucket.next);
      uploaded := uploaded + [o];
    }
    ok := true;
  }

  lemma {:induction false} HoldingAgrees(objects: map<ObjectVersion, string>, a: seq<ObjectVersion>,
                                         b: seq<ObjectVersion>,
                                         files: seq<SourceFile>, n: nat)
    requires n <= |a| && n <= |b| && n <= |files| && forall i :: 0 <= i < n ==> a[i] == b[i]
    ensures Holding(objects, a, files, n) == Holding(objects, b, files, n)
  {
    if n > 0 {
      HoldingAgrees(objects, a, b, files, n - 1);
    }
  }

  /** File `i` is the last of the first `n` that has been uploaded as `o`. */
  ghost predicate LastAs(uploaded: seq<ObjectVersion>, n: nat, i: nat, o: ObjectVersion)
    requires n <= |uploaded|
  {
    i < n && uploaded[i] == o && forall j :: i < j < n ==> uploaded[j] != o
  }

  ghost predicate NoneAs(uploaded: seq<ObjectVersion>, n: nat, o: ObjectVersion)
    requires n <= |uploaded|
  {
    forall j :: 0 <= j < n ==> uploaded[j] != o
  }

  /** Each object of the first `n` files holds the content of the last file uploaded as it, and
      every other object is as it was. */
  lemma {:induction false} HoldingIs(objects: map<ObjectVersion, string>, uploaded: seq<ObjectVersion>,
                                     files: seq<SourceFile>, n: nat, o: ObjectVersion)
    requires n <= |uploaded| && n <= |files|
    ensures forall i: nat :: LastAs(uploaded, n, i, o) ==>
              o in Holding(objects, uploaded, files, n) && Holding(objects, uploaded, files, n)[o] == files[i].content
    ensures NoneAs(uploaded, n, o) ==>
              && (o in Holding(objects, uploaded, files, n) <==> o in objects)
              && (o in objects ==> Holding(objects, uploaded, files, n)[o] == objects[o])
  {
    if n > 0 {
      HoldingIs(objects, uploaded, files, n - 1, o);
      forall i: nat | LastAs(uploaded, n, i, o) ensures i == n - 1 || LastAs(uploaded, n - 1, i, o) {
      }
    }
  }

  // ---------------------------------------------------------------- rollback

  function SetOf(objects: seq<ObjectVersion>): set<ObjectVersion> {
    set o | o in objects
  }

  ghost predicate Distinct(objects: seq<ObjectVersion>) {
    forall i, j :: 0 <= i < j < |objects| ==> objects[i] != objects[j]
  }

  /** Deletes what was uploaded, last first, and goes on after a failure; `gone` is what has
      been deleted, and that is all that changes. */
  method RollbackUploaded(bucket: Bucket, versioning: bool, uploaded: seq<ObjectVersion>)
    returns (available: bool, clean: bool, ghost gone: set<ObjectVersion>)
    requires bucket.Valid()
    modifies bucket
    ensures bucket.Valid() && available == versioning && gone <= SetOf(uploaded)
    ensures bucket.objects == old(bucket.objects) - gone
    ensures !available ==> gone == {}
    ensures available && clean ==> gone == SetOf(uploaded)
    ensures available && !clean && Distinct(uploaded) ==> gone != SetOf(uploaded)
  {
    hide Divided, Distinct, SetOf;
    gone, clean := {}, true;
    if !versioning {
      return false, true, gone;
    }
    ghost var kept: set<ObjectVersion> := {};
    var i := |uploaded|;
    NothingDivided(uploaded);
    while i > 0
      invariant 0 <= i <= |uploaded| && bucket.Valid()
      invariant Divided(uploaded, i, gone, kept) && (clean <==> kept == {})
      invariant bucket.objects == old(bucket.objects) - gone
    {
      i := i - 1;
      var item := uploaded[i];
      DividedOneMore(uploaded, i, gone, kept);
      if item.version == 0 {
        clean, kept := false, kept + {item};
        continue;
      }
      var ok := bucket.DeleteObject(item.key, item.version);
      if !ok {
        clean, kept := false, kept + {item};
      } else {
        RemovedOneMore(old(bucket.objects), gone, item);
        gone := gone + {item};
      }
    }
    AllDivided(uploaded, gone, kept);
    available := true;
  }

  /** From `i` on, what has been deleted and what could not be. */
  ghost predicate Divided(uploaded: seq<ObjectVersion>, i: nat, gone: set<ObjectVersion>, kept: set<ObjectVersion>) {
    i <= |uploaded| && gone + kept == SetOf(uploaded[i..]) && (Distinct(uploaded) ==> gone !! kept)
  }

  lemma NothingDivided(uploaded: seq<ObjectVersion>)
    ensures Divided(uploaded, |uploaded|, {}, {})
  {
  }

  lemma AllDivided(uploaded: seq<ObjectVersion>, gone: set<ObjectVersion>, kept: set<ObjectVersion>)
    requires Divided(uploaded, 0, gone, kept)
    ensures gone <= SetOf(uploaded) && (kept == {} ==> gone == SetOf(uploaded))
    ensures kept != {} && Distinct(uploaded) ==> gone != SetOf(uploaded)
  {
    assert uploaded[0..] == uploaded;
  }

  lemma RemovedOneMore(objects: map<ObjectVersion, string>, gone: set<ObjectVersion>, o: ObjectVersion)
    ensures (objects - gone) - {o} == objects - (gone + {o})
  {
  }

  lemma DividedOneMore(uploaded: seq<ObjectVersion>, i: nat, gone: set<ObjectVersion>, kept: set<ObjectVersion>)
    requires i < |uploaded| && Divided(uploaded, i + 1, gone, kept)
    ensures Divided(uploaded, i, gone + {uploaded[i]}, kept) && Divided(uploaded, i, gone, kept + {uploaded[i]})
  {
    OneMore(uploaded, i);
  }

  lemma OneMore(uploaded: seq<ObjectVersion>, i: nat)
    requires i < |uploaded|
    ensures SetOf(uploaded[i..]) == SetOf(uploaded[i + 1..]) + {uploaded[i]}
    ensures Distinct(uploaded) ==> uploaded[i] !in SetOf(uploaded[i + 1..])
  {
    assert uploaded[i..] == [uploaded[i]] + uploaded[i + 1..];
    var rest := uploaded[i + 1..];
    forall o | o in rest ensures Distinct(uploaded) ==> o != uploaded[i] {
      var k :| 0 <= k < |rest| && rest[k] == o;
      assert uploaded[i + 1 + k] == o;
    }
  }

  /** Taking back fresh versions gives back the bucket as it was. */
  lemma {:induction false} HoldingTakenBack(objects: map<ObjectVersion, string>, uploaded: seq<ObjectVersion>,
                                            files: seq<SourceFile>,
                                            n: nat, low: nat, high: nat)
    requires n <= |uploaded| && n <= |files| && FreshVersions(uploaded, low, high)
    requires forall o :: o in objects ==> o.version < low
    ensures Holding(objects, uploaded, files, n).Keys <= objects.Keys + SetOf(uploaded)
    ensures Holding(objects, uploaded, files, n) - SetOf(uploaded) == objects
  {
    forall o | o in objects ensures o !in SetOf(uploaded) {
    }
    if n > 0 {
      HoldingTakenBack(objects, uploaded, files, n - 1, low, high);
      assert uploaded[n - 1] in SetOf(uploaded);
    }
  }

  /** The apply step: a failed upload into a versioned bucket whose cleanup reports no error
      leaves every object's set of versions as it was. */
  method ApplyFolder(bucket: Bucket, files: seq<SourceFile>, options: UploadOptions) returns (published: Option<nat>,
                     clean: bool)
    requires bucket.Valid()
    modifies bucket
    ensures bucket.Valid() && (published.Some? ==> published.value == |files|)
    ensures published.None? && bucket.versioned && clean ==> bucket.objects == old(bucket.objects)
    ensures published.Some? ==>
              exists uploaded: seq<ObjectVersion> ::
                |uploaded| == |files| && UploadedPrefix(uploaded, files)
                && bucket.objects == Holding(old(bucket.objects), uploaded, files, |files|)
  {
    var objects, first := bucket.objects, bucket.next;
    var ok, uploaded := UploadFiles(bucket, files, options);
    if ok {
      return Some(|uploaded|), true;
    }
    if bucket.versioned {
      HoldingTakenBack(objects, uploaded, files, |uploaded|, first, bucket.next);
    }
    ghost var gone;
    var available;
    available, clean, gone := RollbackUploaded(bucket, bucket.versioned, uploaded);
    published := None;
  }
}

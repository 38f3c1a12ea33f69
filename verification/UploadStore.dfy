/**
 * The store of multipart uploads that several workers share. Every operation runs under one
 * mutex, so a run is a sequence of operations; the server's answers are part of the operations.
 */
module UploadStores {
  import opened Counting
  import opened Options
  import opened Word64

  // ---- Keys and their order ----

  datatype Key = Key(bucketName: string, objectName: string)

  predicate StringLess(a: string, b: string) {
    if b == "" then false
    else if a == "" then true
    else a[0] < b[0] || (a[0] == b[0] && StringLess(a[1..], b[1..]))
  }

  predicate Less(a: Key, b: Key) {
    if |a.objectName| != |b.objectName| then |a.objectName| < |b.objectName|
    else if StringLess(a.objectName, b.objectName) then true
    else if StringLess(b.objectName, a.objectName) then false
    else StringLess(a.bucketName, b.bucketName)
  }

  lemma {:induction false} StringOrder(a: string, b: string, c: string)
    ensures !StringLess(a, a)
    ensures a == b || StringLess(a, b) || StringLess(b, a)
    ensures StringLess(a, b) ==> !StringLess(b, a)
    ensures StringLess(a, b) && StringLess(b, c) ==> StringLess(a, c)
    decreases |a| + |b| + |c|
  {
    var a', b', c' := if a == "" then a else a[1..], if b == "" then b else b[1..], if c == "" then c else c[1..];
    if a != "" || b != "" || c != "" {
      StringOrder(a', b', c');
      if a != "" && b != "" {
        assert a == [a[0]] + a' && b == [b[0]] + b';
      }
    }
  }

  // The position of the first difference decides; a string comes before its extensions.
  ghost predicate DiffersFirst(a: string, b: string, n: nat) {
    n <= |a| && n < |b| && a[..n] == b[..n] && (n == |a| || a[n] < b[n])
  }

  lemma CommonStart(a: string, b: string, n: nat)
    requires DiffersFirst(a, b, n) && n > 0
    ensures a != "" && b != "" && a[0] == b[0]
  {
    assert a[..n][0] == b[..n][0];
  }

  lemma {:induction false} StringLessIff(a: string, b: string)
    ensures StringLess(a, b) <==> exists n: nat :: DiffersFirst(a, b, n)
    decreases |a|
  {
    forall n: nat | DiffersFirst(a, b, n) && n > 0 ensures a != "" && b != "" && a[0] == b[0] {
      CommonStart(a, b, n);
    }
    if a == "" || b == "" || a[0] != b[0] {
      if b != "" && (a == "" || a[0] < b[0]) { assert DiffersFirst(a, b, 0); }
    } else {
      var a', b' := a[1..], b[1..];
      StringLessIff(a', b');
      if n: nat :| DiffersFirst(a', b', n) {
        assert a[..n + 1] == [a[0]] + a'[..n] && b[..n + 1] == [b[0]] + b'[..n];
        assert DiffersFirst(a, b, n + 1);
      }
      if n: nat :| DiffersFirst(a, b, n) {
        assert n > 0 && a'[..n - 1] == a[..n][1..] && b'[..n - 1] == b[..n][1..];
        assert DiffersFirst(a', b', n - 1);
      }
    }
  }

  // The map's order of keys is a strict total order: by the length of the object name, then by
  // the name, then by the bucket.
  lemma KeyOrder(a: Key, b: Key, c: Key)
    ensures !Less(a, a)
    ensures a == b || Less(a, b) || Less(b, a)
    ensures Less(a, b) ==> !Less(b, a)
    ensures Less(a, b) && Less(b, c) ==> Less(a, c)
    ensures |a.objectName| < |b.objectName| ==> Less(a, b)
    ensures |a.objectName| == |b.objectName| && StringLess(a.objectName, b.objectName) ==> Less(a, b)
    ensures a.objectName == b.objectName && StringLess(a.bucketName, b.bucketName) ==> Less(a, b)
  {
    StringOrder(a.objectName, b.objectName, c.objectName);
    StringOrder(b.objectName, a.objectName, c.objectName);
    StringOrder(b.objectName, c.objectName, a.objectName);
    StringOrder(c.objectName, b.objectName, a.objectName);
    StringOrder(a.bucketName, b.bucketName, c.bucketName);
    StringOrder(b.bucketName, a.bucketName, c.bucketName);
  }

  ghost predicate IsFirst(k: Key, keys: set<Key>) {
    k in keys && forall k' <- keys :: k' == k || Less(k, k')
  }

  lemma {:induction false} FirstExists(keys: set<Key>) returns (k: Key)
    requires keys != {}
    ensures IsFirst(k, keys)
    decreases keys
  {
    hide Less;
    var x :| x in keys;
    var rest := keys - {x};
    k := x;
    if rest != {} {
      var r := FirstExists(rest);
      KeyOrder(x, r, r);
      if Less(r, x) { k := r; }
      forall k' | k' in rest ensures k' == k || Less(k, k') { KeyOrder(x, r, k'); }
    }
    assert keys == rest + {x};
  }

  lemma FirstUnique(k: Key, k': Key, keys: set<Key>)
    requires IsFirst(k, keys) && IsFirst(k', keys)
    ensures k == k'
  {
    KeyOrder(k, k', k);
  }

  ghost function First(keys: set<Key>): (k: Key)
    requires keys != {}
    ensures IsFirst(k, keys)
  {
    assert exists k :: IsFirst(k, keys) by { var k := FirstExists(keys); assert IsFirst(k, keys); }
    var k :| IsFirst(k, keys);
    k
  }

  // ---- Uploads and operations ----

  datatype Part = Part(number: nat, etag: string)

  datatype Upload = Upload(numBytesDone: u64, uploadID: string, completedParts: seq<Part>)

  type Uploads = map<Key, Upload>

  datatype Op =
    | Fetch(key: Key, answer: Option<string>)                        // the ID the server would create
    | AddPart(key: Key, bytes: u64, total: u64, part: Part)
    | TakeUnfinished
    | Reset

  datatype Reply =
    | Nothing
    | ID(id: string)
    | CreationFailed
    | Complete(parts: seq<Part>)
    | Unfinished(key: Key, id: string)

  function Added(u: Upload, bytes: u64, part: Part): Upload {
    Upload((u.numBytesDone + bytes) % WORD, u.uploadID, u.completedParts + [part])
  }

  predicate Finishes(u: Upload, bytes: u64, total: u64, noCompletion: bool) {
    (u.numBytesDone + bytes) % WORD >= total && !noCompletion
  }

  ghost function Next(m: Uploads, op: Op, noCompletion: bool): Uploads {
    match op
    case Fetch(key, answer) =>
      if key in m || answer.None? then m else m[key := Upload(0, answer.value, [])]
    case AddPart(key, bytes, total, part) =>
      if key !in m then m
      else if Finishes(m[key], bytes, total, noCompletion) then m - {key}
      else m[key := Added(m[key], bytes, part)]
    case TakeUnfinished => if |m| == 0 then m else m - {First(m.Keys)}
    case Reset => map[]
  }

  ghost function ReplyOf(m: Uploads, op: Op, noCompletion: bool): Reply {
    match op
    case Fetch(key, answer) =>
      if key in m then ID(m[key].uploadID) else if answer.None? then CreationFailed else ID(answer.value)
    case AddPart(key, bytes, total, part) =>
      if key in m && Finishes(m[key], bytes, total, noCompletion) then
        Complete(Added(m[key], bytes, part).completedParts)
      else Nothing
    case TakeUnfinished =>
      if |m| == 0 then Nothing else Unfinished(First(m.Keys), m[First(m.Keys)].uploadID)
    case Reset => Nothing
  }

  class UploadStore {
    var uploads: Uploads
    const noCompletion: bool

    constructor (noCompletion: bool)
      ensures uploads == map[] && this.noCompletion == noCompletion
    {
      uploads, this.noCompletion := map[], noCompletion;
    }

    method GetMultipartUploadID(key: Key, answer: Option<string>) returns (id: Option<string>)
      modifies this
      ensures uploads == Next(old(uploads), Fetch(key, answer), noCompletion)
      ensures ReplyOf(old(uploads), Fetch(key, answer), noCompletion) == if id.Some? then ID(id.value) else CreationFailed
    {
      if key in uploads {
        return Some(uploads[key].uploadID);
      }
      if answer.None? {
        return None;
      }
      uploads := uploads[key := Upload(0, answer.value, [])];
      return Some(uploads[key].uploadID);
    }

    method AddCompletedPart(key: Key, bytes: u64, total: u64, part: Part) returns (parts: Option<seq<Part>>)
      modifies this
      ensures uploads == Next(old(uploads), AddPart(key, bytes, total, part), noCompletion)
      ensures ReplyOf(old(uploads), AddPart(key, bytes, total, part), noCompletion)
        == if parts.Some? then Complete(parts.value) else Nothing
    {
      if key !in uploads {
        return None;
      }
      uploads := uploads[key := Added(uploads[key], bytes, part)];
      var elem := uploads[key];
      if elem.numBytesDone < total || noCompletion {
        return None;
      }
      uploads := uploads - {key};
      return Some(elem.completedParts);
    }

    method GetNextUnfinishedUpload() returns (next: Option<(Key, string)>)
      modifies this
      ensures uploads == Next(old(uploads), TakeUnfinished, noCompletion)
      ensures ReplyOf(old(uploads), TakeUnfinished, noCompletion)
        == if next.Some? then Unfinished(next.value.0, next.value.1) else Nothing
    {
      if |uploads| == 0 {
        return None;
      }
      ghost var first := First(uploads.Keys);
      var key :| key in uploads && forall k' <- uploads :: k' == key || Less(key, k');
      FirstUnique(key, first, uploads.Keys);
      next := Some((key, uploads[key].uploadID));
      uploads := uploads - {key};
    }
  }

  // ---- Runs ----

  ghost function RunFrom(m: Uploads, ops: seq<Op>, noCompletion: bool): Uploads {
    if ops == [] then m else Next(RunFrom(m, ops[..|ops| - 1], noCompletion), ops[|ops| - 1], noCompletion)
  }

  // The reply to the i-th operation of a run.
  ghost function ReplyAt(m: Uploads, ops: seq<Op>, i: nat, noCompletion: bool): Reply
    requires i < |ops|
  {
    ReplyOf(RunFrom(m, ops[..i], noCompletion), ops[i], noCompletion)
  }

  predicate Adds(op: Op, k: Key) {
    op.AddPart? && op.key == k
  }

  predicate Creates(op: Op, k: Key) {
    op.Fetch? && op.key == k && op.answer.Some?
  }

  predicate WasCreated(ops: seq<Op>, k: Key) {
    ops != [] && (WasCreated(ops[..|ops| - 1], k) || Creates(ops[|ops| - 1], k))
  }

  function PartsOf(ops: seq<Op>, k: Key): seq<Part> {
    if ops == [] then []
    else PartsOf(ops[..|ops| - 1], k) + if Adds(ops[|ops| - 1], k) then [ops[|ops| - 1].part] else []
  }

  function BytesOf(ops: seq<Op>, k: Key): nat {
    if ops == [] then 0
    else BytesOf(ops[..|ops| - 1], k) + if Adds(ops[|ops| - 1], k) then ops[|ops| - 1].bytes else 0
  }

  // Workers fetch the upload's ID before they add a part to it; parts are not empty and are added
  // with the object's total size. No upload is taken for an abort and the store is not reset.
  predicate Orderly(ops: seq<Op>, k: Key, total: u64) {
    forall i | 0 <= i < |ops| ::
      && !ops[i].TakeUnfinished? && !ops[i].Reset?
      && (Adds(ops[i], k) ==> ops[i].bytes > 0 && ops[i].total == total && WasCreated(ops[..i], k))
  }

  lemma {:induction false} BytesMono(ops: seq<Op>, n: nat, k: Key)
    requires n <= |ops|
    ensures BytesOf(ops[..n], k) <= BytesOf(ops, k)
    decreases |ops|
  {
    if n == |ops| {
      assert ops[..n] == ops;
    } else {
      assert ops[..|ops| - 1][..n] == ops[..n];
      BytesMono(ops[..|ops| - 1], n, k);
    }
  }

  lemma PrefixStep(ops: seq<Op>, n: nat, k: Key)
    requires n < |ops|
    ensures BytesOf(ops[..n + 1], k) == BytesOf(ops[..n], k) + if Adds(ops[n], k) then ops[n].bytes else 0
    ensures PartsOf(ops[..n + 1], k) == PartsOf(ops[..n], k) + if Adds(ops[n], k) then [ops[n].part] else []
    ensures WasCreated(ops[..n + 1], k) <==> WasCreated(ops[..n], k) || Creates(ops[n], k)
  {
    assert ops[..n + 1][..n] == ops[..n];
  }

  lemma RunStep(m: Uploads, ops: seq<Op>, n: nat)
    requires n < |ops|
    ensures RunFrom(m, ops[..n + 1], false) == Next(RunFrom(m, ops[..n], false), ops[n], false)
  {
    assert ops[..n + 1][..n] == ops[..n];
  }

  // While bytes are missing, the upload is in the map exactly if it was created, and holds every
  // part added so far.
  ghost predicate InProgress(m: Uploads, ops: seq<Op>, k: Key, total: u64) {
    BytesOf(ops, k) < total ==>
      && (k in m ==> m[k].numBytesDone == BytesOf(ops, k) && m[k].completedParts == PartsOf(ops, k))
      && (WasCreated(ops, k) ==> k in m)
      && (k !in m ==> BytesOf(ops, k) == 0 && PartsOf(ops, k) == [])
  }

  lemma StepInProgress(m: Uploads, ops: seq<Op>, n: nat, k: Key, total: u64)
    requires n < |ops| && Orderly(ops, k, total) && BytesOf(ops, k) == total
    requires InProgress(m, ops[..n], k, total)
    ensures InProgress(Next(m, ops[n], false), ops[..n + 1], k, total)
  {
    hide BytesOf, PartsOf, WasCreated, Less, IsFirst;
    PrefixStep(ops, n, k);
    var op := ops[n];
    if !op.TakeUnfinished? && !op.Reset? && op.key != k {
      OtherKeyStays(m, op, k);
      hide Next;
    }
  }

  lemma OtherKeyStays(m: Uploads, op: Op, k: Key)
    requires !op.TakeUnfinished? && !op.Reset? && op.key != k
    ensures (k in Next(m, op, false) <==> k in m) && (k in m ==> Next(m, op, false)[k] == m[k])
  {
  }

  lemma {:induction false} PrefixInProgress(m: Uploads, ops: seq<Op>, n: nat, k: Key, total: u64)
    requires k !in m && n <= |ops| && Orderly(ops, k, total) && BytesOf(ops, k) == total
    ensures InProgress(RunFrom(m, ops[..n], false), ops[..n], k, total)
    decreases n
  {
    if n == 0 {
      assert ops[..0] == [];
    } else {
      PrefixInProgress(m, ops, n - 1, k, total);
      RunStep(m, ops, n - 1);
      StepInProgress(RunFrom(m, ops[..n - 1], false), ops, n - 1, k, total);
    }
  }

  // What an add is answered depends on the bytes that are there with it.
  lemma ReplyByBytes(m: Uploads, ops: seq<Op>, i: nat, k: Key, total: u64)
    requires k !in m && Orderly(ops, k, total) && BytesOf(ops, k) == total
    requires i < |ops| && Adds(ops[i], k)
    ensures ReplyAt(m, ops, i, false)
      == if BytesOf(ops[..i + 1], k) == total then Complete(PartsOf(ops[..i + 1], k)) else Nothing
  {
    hide InProgress, RunFrom, Next, Orderly, ReplyOf, BytesOf, PartsOf;
    PrefixInProgress(m, ops, i, k, total);
    BytesMono(ops, i + 1, k);
    PrefixStep(ops, i, k);
    AddReply(RunFrom(m, ops[..i], false), ops, i, k, total);
  }

  lemma MoreBytesFollow(ops: seq<Op>, i: nat, j: nat, k: Key)
    requires i < j < |ops| && Adds(ops[j], k) && ops[j].bytes > 0
    ensures BytesOf(ops[..i + 1], k) < BytesOf(ops, k)
  {
    hide BytesOf;
    BytesMono(ops, j + 1, k);
    PrefixStep(ops, j, k);
    assert ops[..j][..i + 1] == ops[..i + 1];
    BytesMono(ops[..j], i + 1, k);
  }

  // Exactly the last part added gets the list back, and the list holds every part once, in the
  // order of the adds.
  lemma CompletesExactlyOnce(m: Uploads, ops: seq<Op>, i: nat, k: Key, total: u64)
    requires k !in m && Orderly(ops, k, total) && BytesOf(ops, k) == total
    requires i < |ops| && Adds(ops[i], k)
    ensures (forall j | i < j < |ops| :: !Adds(ops[j], k)) ==> ReplyAt(m, ops, i, false) == Complete(PartsOf(ops, k))
    ensures (exists j | i < j < |ops| :: Adds(ops[j], k)) ==> ReplyAt(m, ops, i, false) == Nothing
  {
    hide ReplyAt, BytesOf, PartsOf;
    ReplyByBytes(m, ops, i, k, total);
    if j :| i < j < |ops| && Adds(ops[j], k) {
      MoreBytesFollow(ops, i, j, k);
    } else {
      NoneLeft(ops, i + 1, k);
    }
  }

  lemma AddReply(m: Uploads, ops: seq<Op>, i: nat, k: Key, total: u64)
    requires i < |ops| && Orderly(ops, k, total) && Adds(ops[i], k) && InProgress(m, ops[..i], k, total)
    requires BytesOf(ops[..i], k) + ops[i].bytes <= total
    ensures ReplyOf(m, ops[i], false)
      == if BytesOf(ops[..i], k) + ops[i].bytes == total then Complete(PartsOf(ops[..i], k) + [ops[i].part]) else Nothing
  {
    hide BytesOf, PartsOf, WasCreated;
  }

  lemma {:induction false} NoneLeft(ops: seq<Op>, n: nat, k: Key)
    requires n <= |ops| && forall j | n <= j < |ops| :: !Adds(ops[j], k)
    ensures BytesOf(ops[..n], k) == BytesOf(ops, k) && PartsOf(ops[..n], k) == PartsOf(ops, k)
    decreases |ops|
  {
    if n == |ops| {
      assert ops[..n] == ops;
    } else {
      var init := ops[..|ops| - 1];
      assert init[..n] == ops[..n];
      NoneLeft(init, n, k);
    }
  }

  // ---- One upload for all workers ----

  // The operation removes the upload of the key from the store.
  ghost predicate Ends(m: Uploads, op: Op, k: Key, noCompletion: bool) {
    || op.Reset?
    || (Adds(op, k) && ReplyOf(m, op, noCompletion).Complete?)
    || (ReplyOf(m, op, noCompletion).Unfinished? && ReplyOf(m, op, noCompletion).key == k)
  }

  // After a fetch that got an ID, the store holds the key with that ID; it gets none exactly if
  // there is no upload yet and the server does not create one.
  lemma FetchHolds(m: Uploads, k: Key, answer: Option<string>, noCompletion: bool)
    ensures var reply, next := ReplyOf(m, Fetch(k, answer), noCompletion), Next(m, Fetch(k, answer), noCompletion);
      && (reply.ID? ==> k in next && next[k].uploadID == reply.id)
      && (!reply.ID? <==> k !in next) && (!reply.ID? ==> reply.CreationFailed? && answer.None?)
      && (k !in m && answer.Some? ==> reply == ID(answer.value))
      && (k in m ==> k in next && next[k] == m[k])
  {
  }

  lemma KeepsID(m: Uploads, op: Op, k: Key, noCompletion: bool)
    requires k in m
    ensures k in Next(m, op, noCompletion) <==> !Ends(m, op, k, noCompletion)
    ensures k in Next(m, op, noCompletion) ==> Next(m, op, noCompletion)[k].uploadID == m[k].uploadID
  {
    hide IsFirst;
  }

  ghost predicate NoEnd(m: Uploads, ops: seq<Op>, i: nat, j: nat, k: Key, noCompletion: bool)
    requires j <= |ops|
  {
    forall n | i <= n < j :: !Ends(RunFrom(m, ops[..n], noCompletion), ops[n], k, noCompletion)
  }

  lemma RunNext(m: Uploads, ops: seq<Op>, n: nat, noCompletion: bool)
    requires n < |ops|
    ensures RunFrom(m, ops[..n + 1], noCompletion) == Next(RunFrom(m, ops[..n], noCompletion), ops[n], noCompletion)
  {
    assert ops[..n + 1][..n] == ops[..n];
  }

  lemma {:induction false} RunKeepsID(m: Uploads, ops: seq<Op>, i: nat, j: nat, k: Key, noCompletion: bool)
    requires i <= j <= |ops| && k in RunFrom(m, ops[..i], noCompletion) && NoEnd(m, ops, i, j, k, noCompletion)
    ensures k in RunFrom(m, ops[..j], noCompletion)
    ensures RunFrom(m, ops[..j], noCompletion)[k].uploadID == RunFrom(m, ops[..i], noCompletion)[k].uploadID
    decreases j
  {
    hide RunFrom, Next, Ends;
    if i < j {
      RunKeepsID(m, ops, i, j - 1, k, noCompletion);
      RunNext(m, ops, j - 1, noCompletion);
      KeepsID(RunFrom(m, ops[..j - 1], noCompletion), ops[j - 1], k, noCompletion);
    }
  }

  // A fetch that got an ID, and what the store holds until the upload ends.
  lemma FetchedIsHeld(m: Uploads, ops: seq<Op>, i: nat, j: nat, k: Key, noCompletion: bool)
    requires i < j <= |ops| && ops[i].Fetch? && ops[i].key == k
    requires ReplyAt(m, ops, i, noCompletion).ID? && NoEnd(m, ops, i + 1, j, k, noCompletion)
    ensures var now := RunFrom(m, ops[..j], noCompletion);
      k in now && ID(now[k].uploadID) == ReplyAt(m, ops, i, noCompletion)
  {
    hide RunFrom, Next, Ends, ReplyOf;
    FetchHolds(RunFrom(m, ops[..i], noCompletion), k, ops[i].answer, noCompletion);
    RunNext(m, ops, i, noCompletion);
    RunKeepsID(m, ops, i + 1, j, k, noCompletion);
  }

  // All fetches of a key get one ID until the upload is handed out or the store is reset,
  // whatever the server would create.
  lemma FetchesAgree(m: Uploads, ops: seq<Op>, i: nat, j: nat, k: Key, noCompletion: bool)
    requires i < j < |ops| && ops[i].Fetch? && ops[i].key == k && ops[j].Fetch? && ops[j].key == k
    requires ReplyAt(m, ops, i, noCompletion).ID? && NoEnd(m, ops, i + 1, j, k, noCompletion)
    ensures ReplyAt(m, ops, j, noCompletion) == ReplyAt(m, ops, i, noCompletion)
  {
    hide RunFrom, Next, Ends, ReplyOf, NoEnd;
    FetchedIsHeld(m, ops, i, j, k, noCompletion);
    var now := RunFrom(m, ops[..j], noCompletion);
    FetchHolds(now, k, ops[j].answer, noCompletion);
  }

  // And that upload is the one handed out, for completion or for an abort.
  lemma HandsOutFetched(m: Uploads, ops: seq<Op>, i: nat, j: nat, k: Key, noCompletion: bool)
    requires i < j < |ops| && ops[i].Fetch? && ops[i].key == k
    requires ReplyAt(m, ops, i, noCompletion).ID? && NoEnd(m, ops, i + 1, j, k, noCompletion)
    requires Ends(RunFrom(m, ops[..j], noCompletion), ops[j], k, noCompletion) && !ops[j].Reset?
    ensures TakenBy(RunFrom(m, ops[..j], noCompletion), ops[j], noCompletion) == [ReplyAt(m, ops, i, noCompletion).id]
  {
    hide RunFrom, Next, NoEnd, IsFirst;
    FetchedIsHeld(m, ops, i, j, k, noCompletion);
  }

  // The upload that the last add hands out for completion has the ID that every fetch before got.
  lemma CompletesFetched(m: Uploads, ops: seq<Op>, f: nat, i: nat, k: Key, total: u64)
    requires k !in m && Orderly(ops, k, total) && BytesOf(ops, k) == total
    requires f < i < |ops| && Adds(ops[i], k) && forall j | i < j < |ops| :: !Adds(ops[j], k)
    requires ops[f].Fetch? && ops[f].key == k && ReplyAt(m, ops, f, false).ID?
    ensures ReplyAt(m, ops, i, false) == Complete(PartsOf(ops, k))
    ensures TakenBy(RunFrom(m, ops[..i], false), ops[i], false) == [ReplyAt(m, ops, f, false).id]
  {
    CompletesExactlyOnce(m, ops, i, k, total);
    forall n | f + 1 <= n < i ensures !Ends(RunFrom(m, ops[..n], false), ops[n], k, false) {
      if Adds(ops[n], k) { CompletesExactlyOnce(m, ops, n, k, total); }
      hide RunFrom, BytesOf, PartsOf, IsFirst;
      assert !ops[n].TakeUnfinished? && !ops[n].Reset?;
    }
    hide RunFrom, BytesOf, PartsOf, Orderly, TakenBy;
    HandsOutFetched(m, ops, f, i, k, false);
  }

  // Without completion, no part is ever handed out, and an upload keeps all its parts.
  lemma {:induction false} NoCompletionKeepsAll(m: Uploads, ops: seq<Op>, k: Key)
    requires k in m && forall op <- ops :: !op.TakeUnfinished? && !op.Reset?
    ensures forall i | 0 <= i < |ops| :: !ReplyAt(m, ops, i, true).Complete?
    ensures var now := RunFrom(m, ops, true);
      && k in now && now[k].uploadID == m[k].uploadID
      && now[k].completedParts == m[k].completedParts + PartsOf(ops, k)
    decreases |ops|
  {
    if ops != [] {
      var init, op := ops[..|ops| - 1], ops[|ops| - 1];
      assert op in ops && forall o <- init :: o in ops;
      NoCompletionKeepsAll(m, init, k);
      hide RunFrom, IsFirst;
      forall i | 0 <= i < |ops| ensures !ReplyAt(m, ops, i, true).Complete? {
        if i < |init| { assert init[..i] == ops[..i] && ReplyAt(m, init, i, true) == ReplyAt(m, ops, i, true); }
      }
      RunNext(m, ops, |ops| - 1, true);
      assert ops[..|ops|] == ops;
    }
  }

  // ---- No upload is handed out twice ----

  // The uploads created by a run, and those it handed out, either for completion or for an abort.
  ghost function Created(m: Uploads, ops: seq<Op>, noCompletion: bool): seq<string> {
    if ops == [] then []
    else
      var init, op := ops[..|ops| - 1], ops[|ops| - 1];
      var now := RunFrom(m, init, noCompletion);
      Created(m, init, noCompletion)
      + if op.Fetch? && op.key !in now && op.answer.Some? then [op.answer.value] else []
  }

  ghost function HandedOut(m: Uploads, ops: seq<Op>, noCompletion: bool): seq<string> {
    if ops == [] then []
    else
      var init, op := ops[..|ops| - 1], ops[|ops| - 1];
      HandedOut(m, init, noCompletion) + TakenBy(RunFrom(m, init, noCompletion), op, noCompletion)
  }

  // The upload that an operation hands out.
  ghost function TakenBy(m: Uploads, op: Op, noCompletion: bool): seq<string> {
    match ReplyOf(m, op, noCompletion)
    case Complete(_) => [m[op.key].uploadID]
    case Unfinished(_, id) => [id]
    case Nothing => []
    case ID(_) => []
    case CreationFailed => []
  }

  function Holders(m: Uploads, id: string): set<Key> {
    set k | k in m && m[k].uploadID == id
  }

  predicate NewUpload(m: Uploads, op: Op) {
    op.Fetch? && op.key !in m && op.answer.Some?
  }

  lemma HoldersAdd(m: Uploads, k: Key, u: Upload, id: string)
    requires k !in m
    ensures |Holders(m[k := u], id)| == |Holders(m, id)| + if u.uploadID == id then 1 else 0
  {
    assert Holders(m[k := u], id) == Holders(m, id) + if u.uploadID == id then {k} else {};
  }

  lemma HoldersDrop(m: Uploads, k: Key, id: string)
    requires k in m
    ensures |Holders(m - {k}, id)| + (if m[k].uploadID == id then 1 else 0) == |Holders(m, id)|
  {
    assert Holders(m, id) == Holders(m - {k}, id) + if m[k].uploadID == id then {k} else {};
  }

  lemma HoldersKeep(m: Uploads, k: Key, u: Upload, id: string)
    requires k in m && u.uploadID == m[k].uploadID
    ensures Holders(m[k := u], id) == Holders(m, id)
  {
  }

  // One operation creates, hands out and keeps uploads so that none appears or vanishes.
  ghost predicate Conserves(m: Uploads, op: Op, id: string, noCompletion: bool) {
    |Holders(Next(m, op, noCompletion), id)| + Count(TakenBy(m, op, noCompletion), id)
    == |Holders(m, id)| + if NewUpload(m, op) && op.answer.value == id then 1 else 0
  }

  lemma CountOne(x: string, id: string)
    ensures Count([x], id) == if x == id then 1 else 0
    ensures Count([], id) == 0
  {
    assert [x][..0] == [];
  }

  lemma FetchConserves(m: Uploads, op: Op, id: string, noCompletion: bool)
    requires op.Fetch?
    ensures Conserves(m, op, id, noCompletion)
  {
    hide Holders, Count;
    CountOne("", id);
    if NewUpload(m, op) { HoldersAdd(m, op.key, Upload(0, op.answer.value, []), id); }
  }

  lemma AddConserves(m: Uploads, op: Op, id: string, noCompletion: bool)
    requires op.AddPart?
    ensures Conserves(m, op, id, noCompletion)
  {
    hide Holders, Count, Finishes;
    CountOne("", id);
    if op.key in m {
      CountOne(m[op.key].uploadID, id);
      HoldersDrop(m, op.key, id);
      HoldersKeep(m, op.key, Added(m[op.key], op.bytes, op.part), id);
    }
  }

  lemma TakeConserves(m: Uploads, op: Op, id: string, noCompletion: bool)
    requires op.TakeUnfinished?
    ensures Conserves(m, op, id, noCompletion)
  {
    hide Holders, Count, First;
    CountOne("", id);
    if |m| > 0 {
      CountOne(m[First(m.Keys)].uploadID, id);
      HoldersDrop(m, First(m.Keys), id);
    }
  }

  lemma StepConserves(m: Uploads, op: Op, id: string, noCompletion: bool)
    requires !op.Reset?
    ensures Conserves(m, op, id, noCompletion)
  {
    hide Conserves;
    match op
    case Fetch(_, _) => FetchConserves(m, op, id, noCompletion);
    case AddPart(_, _, _, _) => AddConserves(m, op, id, noCompletion);
    case TakeUnfinished => TakeConserves(m, op, id, noCompletion);
  }

  predicate NoReset(ops: seq<Op>) {
    forall op <- ops :: !op.Reset?
  }

  // Every upload that was created is still in the store or was handed out, and never both; a
  // reset only loses uploads.
  lemma {:induction false} UploadsConserved(ops: seq<Op>, id: string, noCompletion: bool)
    ensures Count(Created(map[], ops, noCompletion), id)
      >= Count(HandedOut(map[], ops, noCompletion), id) + |Holders(RunFrom(map[], ops, noCompletion), id)|
    ensures NoReset(ops) ==>
      Count(Created(map[], ops, noCompletion), id)
      == Count(HandedOut(map[], ops, noCompletion), id) + |Holders(RunFrom(map[], ops, noCompletion), id)|
    decreases |ops|
  {
    if ops == [] {
      assert Holders(map[], id) == {};
    } else {
      hide Next, TakenBy, Holders, Count;
      var init, op := ops[..|ops| - 1], ops[|ops| - 1];
      var m := RunFrom(map[], init, noCompletion);
      UploadsConserved(init, id, noCompletion);
      var created := if NewUpload(m, op) then [op.answer.value] else [];
      CountConcat(Created(map[], init, noCompletion), created, id);
      CountConcat(HandedOut(map[], init, noCompletion), TakenBy(m, op, noCompletion), id);
      if NewUpload(m, op) { CountOne(op.answer.value, id); }
      if op.Reset? {
        ResetHandsOutNothing(m, id, noCompletion);
        assert op in ops;
      } else {
        StepConserves(m, op, id, noCompletion);
      }
    }
  }

  lemma ResetHandsOutNothing(m: Uploads, id: string, noCompletion: bool)
    ensures TakenBy(m, Reset, noCompletion) == [] && Holders(Next(m, Reset, noCompletion), id) == {}
  {
  }

  // When the server never creates the same ID twice, no upload is handed out twice, be it for
  // completion or for an abort, and none that was handed out is still in the store.
  lemma HandedOutOnce(ops: seq<Op>, id: string, noCompletion: bool)
    requires Count(Created(map[], ops, noCompletion), id) <= 1
    ensures Count(HandedOut(map[], ops, noCompletion), id) <= 1
    ensures Count(HandedOut(map[], ops, noCompletion), id) == 1 ==>
      forall k | k in RunFrom(map[], ops, noCompletion) :: RunFrom(map[], ops, noCompletion)[k].uploadID != id
  {
    hide Created, HandedOut, RunFrom, Count;
    UploadsConserved(ops, id, noCompletion);
    var m := RunFrom(map[], ops, noCompletion);
    if k :| k in m && m[k].uploadID == id {
      assert k in Holders(m, id);
    }
  }

  // ---- Taking all unfinished uploads ----

  // The keys handed out by asking for unfinished uploads until none is left.
  ghost function Drained(m: Uploads, noCompletion: bool): seq<Key>
    decreases |m|
  {
    if |m| == 0 then [] else
      DropShrinks(m, First(m.Keys));
      [ReplyOf(m, TakeUnfinished, noCompletion).key] + Drained(Next(m, TakeUnfinished, noCompletion), noCompletion)
  }

  lemma DropShrinks(m: Uploads, k: Key)
    requires k in m
    ensures |m - {k}| == |m| - 1 && (m - {k}).Keys == m.Keys - {k}
  {
    assert (m - {k}).Keys == m.Keys - {k};
    assert |m.Keys| == |m| && |(m - {k}).Keys| == |m - {k}|;
  }

  predicate InOrder(keys: seq<Key>) {
    forall i, j | 0 <= i < j < |keys| :: Less(keys[i], keys[j])
  }

  lemma FirstInOrder(k: Key, rest: seq<Key>)
    requires InOrder(rest) && forall k' <- rest :: Less(k, k')
    ensures InOrder([k] + rest)
  {
    hide Less;
  }

  lemma DrainedStep(m: Uploads, noCompletion: bool)
    requires |m| > 0
    ensures Drained(m, noCompletion) == [First(m.Keys)] + Drained(m - {First(m.Keys)}, noCompletion)
  {
    hide IsFirst;
  }

  // Every upload of the store is handed out, in the order of the keys.
  lemma {:induction false} DrainTakesEverything(m: Uploads, noCompletion: bool)
    ensures |Drained(m, noCompletion)| == |m| && forall k :: k in Drained(m, noCompletion) <==> k in m
    ensures InOrder(Drained(m, noCompletion))
    decreases |m|
  {
    if |m| == 0 {
      assert m == map[];
    } else {
      hide Less, InOrder, Drained;
      var k := First(m.Keys);
      DropShrinks(m, k);
      DrainedStep(m, noCompletion);
      DrainTakesEverything(m - {k}, noCompletion);
      var rest := Drained(m - {k}, noCompletion);
      forall k' | k' in rest ensures Less(k, k') { assert k' in m - {k}; }
      FirstInOrder(k, rest);
    }
  }
}

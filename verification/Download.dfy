/** A batch file download that resumes after failures, with a running hash. A
    hasher is represented by the bytes it has absorbed. */
module Download {
  import opened Bytes

  const MAX_RETRIES: nat := 5
  const HASH_BUFFER_SIZE: nat := 0x80_0000

  /** How one request goes: the sizes of the pieces the body arrives in, and
      whether it arrives in full or breaks off after them. */
  datatype Attempt = Attempt(pieces: seq<nat>, completes: bool)

  datatype Outcome = Completed | AlreadyDownloaded | FileTooLarge | GaveUp

  datatype Existing = NoFile | Resume(size: nat) | Complete | TooLarge

  // ----- how a download goes, by sizes -----

  function Sum(pieces: seq<nat>): nat {
    if pieces == [] then 0 else Sum(pieces[..|pieces| - 1]) + pieces[|pieces| - 1]
  }

  lemma SumNext(pieces: seq<nat>, i: nat)
    requires i < |pieces|
    ensures Sum(pieces[..i + 1]) == Sum(pieces[..i]) + pieces[i]
  {
    assert pieces[..i + 1][..i] == pieces[..i];
  }

  lemma {:induction false} SumAppend(a: seq<nat>, b: seq<nat>)
    ensures Sum(a + b) == Sum(a) + Sum(b)
    ensures forall n: nat {:trigger Sum([n])} :: Sum([n]) == n
  {
    forall n: nat ensures Sum([n]) == n {
      assert [n][..0] == [];
    }
    if b == [] {
      assert a + b == a;
    } else {
      var rest := b[..|b| - 1];
      SumAppend(a, rest);
      assert (a + b)[..|a + b| - 1] == a + rest;
    }
  }

  /** The pieces of the first `k` tries, in order. */
  function AllPieces(tries: seq<Attempt>, k: nat): seq<nat>
    requires k <= |tries|
  {
    if k == 0 then [] else AllPieces(tries, k - 1) + tries[k - 1].pieces
  }

  /** How far a request for the content from `size` on brings the file. */
  function Reached(remote: nat, size: nat, attempt: Attempt): nat {
    if attempt.completes then remote else Min(remote, size + Sum(attempt.pieces))
  }

  /** The outcome from try number `retry` on, for a file of that size. */
  function Predicted(remote: nat, expSize: nat, size: Option<nat>, tries: seq<Attempt>, retry: nat): Outcome
    requires |tries| >= MAX_RETRIES && retry < MAX_RETRIES
    decreases MAX_RETRIES - retry
  {
    if size == Some(expSize) then AlreadyDownloaded
    else if size.Some? && size.value > expSize then FileTooLarge
    else if tries[retry].completes then Completed
    else if retry + 1 == MAX_RETRIES then GaveUp
    else
      var offset := if size.Some? then size.value else 0;
      Predicted(remote, expSize, Some(Reached(remote, offset, tries[retry])), tries, retry + 1)
  }

  function SizeAfter(n: nat, size: nat, tries: seq<Attempt>, k: nat): nat
    requires k <= |tries|
  {
    if k == 0 then size else Reached(n, SizeAfter(n, size, tries, k - 1), tries[k - 1])
  }

  /** The first `k` tries all break off, and the file is complete nevertheless. */
  predicate CompleteAnyway(n: nat, size: nat, tries: seq<Attempt>, k: nat)
    requires k <= |tries|
  {
    SizeAfter(n, size, tries, k) == n && forall j :: 0 <= j < k ==> !tries[j].completes
  }

  /** A download that a try finds complete is never verified. Of a content of the
      expected size this happens exactly when it was there to begin with, or some
      tries, fewer than five, all break off and yet bring what is missing. */
  lemma UnverifiedExactly(n: nat, size: Option<nat>, tries: seq<Attempt>)
    requires |tries| >= MAX_RETRIES && (size.Some? ==> size.value <= n) && (size.None? ==> n > 0)
    ensures var had := if size.Some? then size.value else 0;
            Predicted(n, n, size, tries, 0) == AlreadyDownloaded <==>
            exists k :: 0 <= k < MAX_RETRIES && CompleteAnyway(n, had, tries, k)
  {
    var s := if size.Some? then size.value else 0;
    UnverifiedFrom(n, s, tries, 0);
    assert size.None? ==> Predicted(n, n, None, tries, 0) == Predicted(n, n, Some(0), tries, 0);
  }

  lemma {:induction false} UnverifiedFrom(n: nat, size: nat, tries: seq<Attempt>, retry: nat)
    requires |tries| >= MAX_RETRIES && retry < MAX_RETRIES
    requires SizeAfter(n, size, tries, retry) <= n && forall j :: 0 <= j < retry ==> !tries[j].completes
    ensures Predicted(n, n, Some(SizeAfter(n, size, tries, retry)), tries, retry) == AlreadyDownloaded <==>
            exists k :: retry <= k < MAX_RETRIES && CompleteAnyway(n, size, tries, k)
    decreases MAX_RETRIES - retry
  {
    var now := SizeAfter(n, size, tries, retry);
    if now == n {
      assert CompleteAnyway(n, size, tries, retry);
    } else if tries[retry].completes || retry + 1 == MAX_RETRIES {
    } else {
      UnverifiedFrom(n, size, tries, retry + 1);
      assert !CompleteAnyway(n, size, tries, retry);
    }
  }

  /** Tries that all break off leave the beginning of the content that their
      pieces, put together, reach. */
  lemma {:induction false} BrokenOffTries(n: nat, size: nat, tries: seq<Attempt>, k: nat)
    requires k <= |tries| && size <= n && forall j :: 0 <= j < k ==> !tries[j].completes
    ensures SizeAfter(n, size, tries, k) == Min(n, size + Sum(AllPieces(tries, k)))
    ensures k > 0 ==> Sum(AllPieces(tries, k)) == Sum(AllPieces(tries, k - 1)) + Sum(tries[k - 1].pieces)
  {
    hide *;
    if k == 0 {
      NoTries(n, size, tries);
    } else {
      BrokenOffTries(n, size, tries, k - 1);
      LastTry(n, size, tries, k);
      SumAppend(AllPieces(tries, k - 1), tries[k - 1].pieces);
      OneMoreTry(n, size + Sum(AllPieces(tries, k - 1)), tries[k - 1]);
    }
  }

  lemma NoTries(n: nat, size: nat, tries: seq<Attempt>)
    requires size <= n
    ensures SizeAfter(n, size, tries, 0) == Min(n, size + Sum(AllPieces(tries, 0)))
  {
  }

  lemma LastTry(n: nat, size: nat, tries: seq<Attempt>, k: nat)
    requires 0 < k <= |tries|
    ensures SizeAfter(n, size, tries, k) == Reached(n, SizeAfter(n, size, tries, k - 1), tries[k - 1])
    ensures AllPieces(tries, k) == AllPieces(tries, k - 1) + tries[k - 1].pieces
  {
  }

  lemma OneMoreTry(n: nat, reached: nat, attempt: Attempt)
    requires !attempt.completes
    ensures Reached(n, Min(n, reached), attempt) == Min(n, reached + Sum(attempt.pieces))
  {
    hide Sum;
  }

  function SizeOfFile(file: Option<bytes>): Option<nat> {
    if file.Some? then Some(|file.value|) else None
  }

  /** The file after the first `k` tries, which all broke off. */
  predicate LeftBehind(remote: bytes, first: Option<bytes>, tries: seq<Attempt>, k: nat, file: Option<bytes>)
    requires k <= |tries|
  {
    var had := if first.Some? then |first.value| else 0;
    if k == 0 then file == first else file == Some(remote[..Min(|remote|, had + Sum(AllPieces(tries, k)))])
  }

  lemma LeftBehindFirst(remote: bytes, first: Option<bytes>, tries: seq<Attempt>)
    ensures LeftBehind(remote, first, tries, 0, first)
  {
  }

  lemma LeftBehindNext(
    remote: bytes, first: Option<bytes>, tries: seq<Attempt>, k: nat, file: Option<bytes>, next: Option<bytes>)
    requires k < |tries| && LeftBehind(remote, first, tries, k, file)
    requires file.Some? ==> file.value <= remote
    requires var had := if file.Some? then |file.value| else 0;
             next == Some(remote[..Min(|remote|, had + Sum(tries[k].pieces))])
    ensures LeftBehind(remote, first, tries, k + 1, next)
  {
    SumAppend(AllPieces(tries, k), tries[k].pieces);
  }

  class Downloader {
    /** The content the server serves, and the output file. */
    const remote: bytes
    var file: Option<bytes>
    var hasher: Option<bytes>
    var attempts: nat
    /** What the hasher had absorbed when the hash was verified. */
    ghost var verified: Option<bytes>

    constructor (remote: bytes, file: Option<bytes>, hashing: bool)
      ensures this.remote == remote && this.file == file && attempts == 0 && verified == None
      ensures hasher == if hashing then Some([]) else None
    {
      this.remote, this.file := remote, file;
      hasher := if hashing then Some([]) else None;
      attempts, verified := 0, None;
    }

    /** The file, if there is one, is a prefix of the remote content. */
    ghost predicate Valid()
      reads this
    {
      file.Some? ==> file.value <= remote
    }

    method Update(data: bytes)
      requires hasher.Some?
      modifies this`hasher
      ensures hasher == Some(old(hasher).value + data)
    {
      hasher := Some(hasher.value + data);
    }

    /** What the output path holds already; what it holds of an incomplete
        download is hashed, a buffer at a time. */
    method CheckIfFileExists(expSize: nat) returns (found: Existing)
      requires hasher.Some? ==> hasher.value == []
      modifies this`hasher
      ensures found == (if file.None? then NoFile
                        else if |file.value| < expSize then Resume(|file.value|)
                        else if |file.value| == expSize then Complete
                        else TooLarge)
      ensures hasher.Some? <==> old(hasher).Some?
      ensures hasher.Some? ==> hasher.value == if found.Resume? then file.value else []
    {
      if file.None? {
        return NoFile;
      }
      var actualSize := |file.value|;
      if actualSize < expSize {
        if hasher.Some? {
          var read := 0;
          while read < actualSize
            invariant 0 <= read <= actualSize
            invariant hasher == Some(file.value[..read])
          {
            var readSize := Min(HASH_BUFFER_SIZE, actualSize - read);
            assert file.value[..read] + file.value[read..read + readSize] == file.value[..read + readSize];
            Update(file.value[read..read + readSize]);
            read := read + readSize;
          }
          assert file.value[..read] == file.value;
        }
        return Resume(actualSize);
      }
      return if actualSize == expSize then Complete else TooLarge;
    }

    /** The content receiver: each piece goes to the hasher and to the file. */
    method Receive(data: bytes)
      requires file.Some?
      modifies this`file, this`hasher
      ensures file == Some(old(file).value + data)
      ensures hasher == if old(hasher).Some? then Some(old(hasher).value + data) else None
    {
      if hasher.Some? {
        Update(data);
      }
      file := Some(file.value + data);
    }

    /** A request for the content from an offset on. The server answers with
        that suffix, as far as the attempt goes. */
    method GetRawStream(offset: nat, attempt: Attempt) returns (ok: bool)
      requires file.Some? && offset <= |remote| && file.value == remote[..offset]
      requires hasher.Some? ==> hasher.value == file.value
      modifies this`file, this`hasher
      ensures ok == attempt.completes
      ensures Valid() && file.Some? && |file.value| >= offset
      ensures hasher.Some? <==> old(hasher).Some?
      ensures hasher.Some? ==> hasher.value == file.value
      ensures ok ==> file == Some(remote)
      ensures !ok ==> file == Some(remote[..Min(|remote|, offset + Sum(attempt.pieces))])
      ensures |file.value| == Reached(|remote|, offset, attempt)
    {
      var sent := offset;
      var i := 0;
      while i < |attempt.pieces|
        invariant 0 <= i <= |attempt.pieces|
        invariant offset <= sent <= |remote| && file == Some(remote[..sent])
        invariant sent == Min(|remote|, offset + Sum(attempt.pieces[..i]))
        invariant hasher.Some? <==> old(hasher).Some?
        invariant hasher.Some? ==> hasher.value == file.value
      {
        var n := Min(attempt.pieces[i], |remote| - sent);
        assert remote[..sent] + remote[sent..sent + n] == remote[..sent + n];
        Receive(remote[sent..sent + n]);
        SumNext(attempt.pieces, i);
        sent := sent + n;
        i := i + 1;
      }
      assert attempt.pieces[..i] == attempt.pieces;
      if attempt.completes && sent < |remote| {
        assert remote[..sent] + remote[sent..] == remote;
        Receive(remote[sent..]);
      }
      assert remote[..|remote|] == remote;
      return attempt.completes;
    }

    /** One turn of the retry loop: a try, unless the file shows that there is
        nothing to fetch. None means that the try broke off. */
    method TryOnce(expSize: nat, attempt: Attempt) returns (outcome: Option<Outcome>)
      requires Valid() && verified == None && (hasher.Some? ==> hasher.value == [])
      modifies this
      ensures Valid() && (hasher.Some? <==> old(hasher).Some?)
      ensures old(file).Some? ==> file.Some? && old(file).value <= file.value
      ensures outcome == (if old(SizeOfFile(file)) == Some(expSize) then Some(AlreadyDownloaded)
                          else if old(file).Some? && |old(file).value| > expSize then Some(FileTooLarge)
                          else if attempt.completes then Some(Completed)
                          else None)
      ensures attempts == old(attempts) + if outcome.None? || outcome == Some(Completed) then 1 else 0
      ensures outcome.None? ==>
                SizeOfFile(file) ==
                Some(Reached(|remote|, if old(file).Some? then |old(file).value| else 0, attempt))
      ensures outcome.None? ==>
                var had := if old(file).Some? then |old(file).value| else 0;
                file == Some(remote[..Min(|remote|, had + Sum(attempt.pieces))])
      ensures outcome == Some(Completed) ==>
                file == Some(remote) && verified == hasher && (hasher.Some? ==> hasher.value == remote)
      ensures outcome != Some(Completed) ==> verified == None
      ensures outcome.Some? && outcome != Some(Completed) ==> file == old(file)
    {
      hide Reached;
      var existing := CheckIfFileExists(expSize);
      if existing.Complete? {
        return Some(AlreadyDownloaded);
      }
      if existing.TooLarge? {
        return Some(FileTooLarge);
      }
      var offset := 0;
      if existing.Resume? {
        offset := existing.size;
      } else {
        // opening without a range truncates or creates the file
        file := Some([]);
      }
      ghost var before := file.value;
      assert file.value == remote[..offset];
      attempts := attempts + 1;
      var ok := GetRawStream(offset, attempt);
      assert before <= file.value;
      if !ok {
        return None;
      }
      // VerifyHash
      verified := hasher;
      return Some(Completed);
    }

    /** Tries up to five times, each time resuming behind what the file holds.
        The file never loses a byte and is always a prefix of the remote content;
        a completed download has the whole content in the file, and in the hash
        that is verified. The outcome is the one the sizes predict. */
    method DownloadFile(expSize: nat, tries: seq<Attempt>) returns (outcome: Outcome)
      requires Valid() && attempts == 0 && verified == None && (hasher.Some? ==> hasher.value == [])
      requires |tries| >= MAX_RETRIES
      modifies this
      ensures outcome == Predicted(|remote|, expSize, old(SizeOfFile(file)), tries, 0)
      ensures Valid() && attempts <= 5
      ensures old(file).Some? ==> file.Some? && old(file).value <= file.value
      ensures outcome.Completed? <==> exists k :: 0 <= k < attempts && tries[k].completes
      ensures outcome.Completed? ==> file == Some(remote) && verified == hasher && (hasher.Some? <==> old(hasher).Some?)
      ensures outcome.Completed? && hasher.Some? ==> hasher.value == remote
      ensures outcome.AlreadyDownloaded? ==> file.Some? && |file.value| == expSize && verified == None
      ensures outcome.FileTooLarge? ==> file.Some? && |file.value| > expSize && verified == None
      ensures outcome.GaveUp? ==> attempts == 5 && verified == None
      ensures outcome.GaveUp? ==> LeftBehind(remote, old(file), tries, 5, file)
    {
      hide Reached, LeftBehind;
      var retry := 0;
      LeftBehindFirst(remote, file, tries);
      while true
        invariant 0 <= retry < MAX_RETRIES && attempts == retry
        invariant Valid() && verified == None
        invariant Predicted(|remote|, expSize, old(SizeOfFile(file)), tries, 0) ==
                  Predicted(|remote|, expSize, SizeOfFile(file), tries, retry)
        invariant hasher.Some? <==> old(hasher).Some?
        invariant hasher.Some? ==> hasher.value == []
        invariant old(file).Some? ==> file.Some? && old(file).value <= file.value
        invariant forall k :: 0 <= k < retry ==> !tries[k].completes
        invariant LeftBehind(remote, old(file), tries, retry, file)
        decreases MAX_RETRIES - retry
      {
        ghost var before := file;
        var result := TryOnce(expSize, tries[retry]);
        if result.Some? {
          assert result == Some(Completed) ==> tries[retry].completes;
          return result.value;
        }
        LeftBehindNext(remote, old(file), tries, retry, before, file);
        retry := retry + 1;
        if retry == MAX_RETRIES {
          return GaveUp;
        }
        if hasher.Some? {
          hasher := Some([]);
        }
      }
    }
  }
}

/**
 * The digest computer of Services/IntegrityWatcher.cs: `ComputeSha256`
 * (lines 129-135) and the bounded retry around it (lines 137-151).
 *
 * Reading the file and the SHA-256 algorithm are outside the model: one
 * attempt to hash a path is an oracle outcome (the bytes read, an
 * IOException, or any other exception), and SHA-256 is a function
 * parameter from content to a 32-byte digest.
 */
module Digest {
  import opened Wrappers
  import opened Hex

  /** A SHA-256 digest: exactly 32 bytes. */
  type Digest32 = d: seq<byte> | |d| == 32 witness seq(32, _ => 0)

  /** The hash algorithm, left uninterpreted. */
  type Sha256 = seq<byte> -> Digest32

  /** What one call of `ComputeSha256` meets when it opens and reads the file. */
  datatype ReadOutcome =
    | Read(content: seq<byte>)  // the whole file was read
    | IOError                   // an IOException, FileNotFoundException included
    | OtherError                // any other exception, e.g. UnauthorizedAccessException

  /** The outcome of `ComputeSha256WithRetry`: a hash string, null, or an exception that escapes. */
  datatype HashResult = Hash(hex: string) | NullHash | Raised

  /** The default value of the `retries` parameter (line 137). */
  const DefaultRetries: int := 5

  /** Attempt `k` (from 0) to hash `path`, as the filesystem answers it. */
  type Reader = (string, nat) -> ReadOutcome

  /** `ComputeSha256` once the bytes are in hand: the hash string of their digest. */
  function ComputeSha256(sha256: Sha256, content: seq<byte>): (h: string)
    ensures |h| == 64
    ensures IsLowerHex(h) && '-' !in h
    ensures ParseLowerHex(h) == Some(sha256(content))
  {
    HexStringShape(sha256(content));
    HexStringRoundTrip(sha256(content));
    HexString(sha256(content))
  }

  /**
   * The retry loop from attempt `i` on: the first attempt that reads the
   * file gives its hash, an IOException moves on to the next attempt, any
   * other exception ends the loop, and running out of attempts gives null.
   */
  function RetryFrom(read: Reader, sha256: Sha256, path: string, retries: int, i: nat): (r: HashResult)
    ensures r.Hash? ==> |r.hex| == 64 && IsLowerHex(r.hex)
    decreases retries - i
  {
    if i >= retries then NullHash
    else match read(path, i)
      case Read(content) => Hash(ComputeSha256(sha256, content))
      case IOError => RetryFrom(read, sha256, path, retries, i + 1)
      case OtherError => Raised
  }

  function Retry(read: Reader, sha256: Sha256, path: string, retries: int): (r: HashResult)
    ensures r.Hash? ==> |r.hex| == 64 && IsLowerHex(r.hex)
  {
    RetryFrom(read, sha256, path, retries, 0)
  }

  /** Null comes back exactly when every one of the remaining attempts raised an IOException. */
  lemma {:induction false} RetryFromNullIff(read: Reader, sha256: Sha256, path: string, retries: int, i: nat)
    ensures RetryFrom(read, sha256, path, retries, i).NullHash?
        <==> forall k :: i <= k < retries ==> read(path, k).IOError?
    decreases retries - i
  {
    if i < retries {
      RetryFromNullIff(read, sha256, path, retries, i + 1);
    }
  }

  /** `ComputeSha256WithRetry` returns null iff all `retries` attempts raised an IOException. */
  lemma RetryNullIff(read: Reader, sha256: Sha256, path: string, retries: int)
    ensures Retry(read, sha256, path, retries).NullHash?
        <==> forall k :: 0 <= k < retries ==> read(path, k).IOError?
  {
    RetryFromNullIff(read, sha256, path, retries, 0);
  }

  /** Every attempt from `i` up to (not including) `k` raised an IOException. */
  predicate IOErrorsBetween(read: Reader, path: string, i: nat, k: nat) {
    i <= k && forall j :: i <= j < k ==> read(path, j).IOError?
  }

  /**
   * From attempt `i` on, the loop's result is decided by the first attempt
   * that does not raise an IOException: a read gives the hash of what it
   * read, another exception escapes, and if there is none within the
   * budget the result is null.
   */
  lemma {:induction false} RetryFromFirstOutcome(read: Reader, sha256: Sha256, path: string, retries: int, i: nat)
    ensures RetryFrom(read, sha256, path, retries, i).Hash?
        <==> exists k: nat :: k < retries && IOErrorsBetween(read, path, i, k) && read(path, k).Read?
    ensures forall k: nat :: k < retries && IOErrorsBetween(read, path, i, k) && read(path, k).Read? ==>
              RetryFrom(read, sha256, path, retries, i) == Hash(ComputeSha256(sha256, read(path, k).content))
    ensures RetryFrom(read, sha256, path, retries, i).Raised?
        <==> exists k: nat :: k < retries && IOErrorsBetween(read, path, i, k) && read(path, k).OtherError?
    decreases retries - i
  {
    if i < retries {
      RetryFromFirstOutcome(read, sha256, path, retries, i + 1);
      assert IOErrorsBetween(read, path, i, i);
      forall k | IOErrorsBetween(read, path, i, k) && k != i
        ensures read(path, i).IOError? && IOErrorsBetween(read, path, i + 1, k)
      {
      }
      if read(path, i).IOError? {
        forall k | IOErrorsBetween(read, path, i + 1, k)
          ensures IOErrorsBetween(read, path, i, k)
        {
        }
      }
    }
  }

  /**
   * `ComputeSha256WithRetry` returns a hash exactly when one of the first
   * `retries` attempts reads the file after only IOExceptions; the hash is
   * that of what the first such attempt read and parses back to its SHA-256.
   * An exception escapes exactly when such an attempt raised another one.
   */
  lemma RetryFirstOutcome(read: Reader, sha256: Sha256, path: string, retries: int)
    ensures Retry(read, sha256, path, retries).Hash?
        <==> exists k: nat :: k < retries && IOErrorsBetween(read, path, 0, k) && read(path, k).Read?
    ensures forall k: nat :: k < retries && IOErrorsBetween(read, path, 0, k) && read(path, k).Read? ==>
              && Retry(read, sha256, path, retries) == Hash(ComputeSha256(sha256, read(path, k).content))
              && ParseLowerHex(Retry(read, sha256, path, retries).hex) == Some(sha256(read(path, k).content))
    ensures Retry(read, sha256, path, retries).Raised?
        <==> exists k: nat :: k < retries && IOErrorsBetween(read, path, 0, k) && read(path, k).OtherError?
  {
    RetryFromFirstOutcome(read, sha256, path, retries, 0);
  }

  /**
   * `ComputeSha256WithRetry(filePath, retries = 5)`; `attempts` counts the
   * calls of `ComputeSha256` the loop made.
   */
  method ComputeSha256WithRetry(read: Reader, sha256: Sha256, path: string, retries: int := DefaultRetries)
    returns (r: HashResult, ghost attempts: nat)
    ensures r == Retry(read, sha256, path, retries)
    ensures attempts <= if retries < 0 then 0 else retries
    ensures forall k :: 0 <= k < attempts - 1 ==> read(path, k).IOError?
    ensures r.NullHash? <==> forall k :: 0 <= k < retries ==> read(path, k).IOError?
    ensures r.NullHash? ==> attempts == if retries < 0 then 0 else retries
    ensures r.Hash? ==> 0 < attempts && read(path, attempts - 1).Read?
                        && r.hex == ComputeSha256(sha256, read(path, attempts - 1).content)
    ensures r.Raised? ==> 0 < attempts && read(path, attempts - 1).OtherError?
  {
    var i: nat := 0;
    while i < retries
      invariant i <= if retries < 0 then 0 else retries
      invariant forall k :: 0 <= k < i ==> read(path, k).IOError?
      invariant RetryFrom(read, sha256, path, retries, i) == Retry(read, sha256, path, retries)
    {
      match read(path, i) {
        case Read(content) =>
          return Hash(ComputeSha256(sha256, content)), i + 1;
        case OtherError =>
          return Raised, i + 1;
        case IOError =>
      }
      i := i + 1;
    }
    return NullHash, i;
  }
}

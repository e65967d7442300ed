/** The duplicate filter of `SheetGrabber.remove_dupe_frames`, over the
    chronologically sorted frame indices and their perceptual hashes. */
module Dedup {

  /** A perceptual hash: `imagehash.phash` with its default 8 x 8 bits. */
  type Hash = h: seq<bool> | |h| == 64 witness seq(64, i => false)

  /** Number of positions at which two equally long bit strings differ. */
  function DiffCount(a: seq<bool>, b: seq<bool>): nat
    requires |a| == |b|
  {
    if a == [] then 0 else (if a[0] != b[0] then 1 else 0) + DiffCount(a[1..], b[1..])
  }

  /** `hash1 - hash2` on two image hashes: their Hamming distance. */
  function Distance(a: Hash, b: Hash): nat {
    DiffCount(a, b)
  }

  /** Line 216: hashes closer than this mark a duplicate. */
  const Threshold: nat := 5

  predicate Similar(a: Hash, b: Hash) {
    Distance(a, b) < Threshold
  }

  predicate Hashed(files: seq<nat>, hashes: map<nat, Hash>) {
    forall i :: 0 <= i < |files| ==> files[i] in hashes
  }

  predicate Increasing(files: seq<nat>) {
    forall i, j :: 0 <= i < j < |files| ==> files[i] < files[j]
  }

  /** Whether file `i` survives: the first file always, any other file when its
      hash is at least Threshold away from its original predecessor's. */
  predicate Keep(files: seq<nat>, hashes: map<nat, Hash>, i: nat)
    requires i < |files| && Hashed(files, hashes)
  {
    i == 0 || !Similar(hashes[files[i - 1]], hashes[files[i]])
  }

  /** Lines 218-222 after `n` pairs: `rm_filenames`, file `i + 1` appended when
      it is similar to file `i`. */
  function MarkedUpTo(files: seq<nat>, hashes: map<nat, Hash>, n: nat): seq<nat>
    requires n < |files| || n == 0
    requires Hashed(files, hashes)
  {
    if n == 0 then []
    else
      MarkedUpTo(files, hashes, n - 1) +
      (if Similar(hashes[files[n - 1]], hashes[files[n]]) then [files[n]] else [])
  }

  /** Number of adjacent pairs the scan compares: `len(image_files[:-1])`. */
  function Pairs(files: seq<nat>): nat {
    if files == [] then 0 else |files| - 1
  }

  /** The full `rm_filenames` list. */
  function Marked(files: seq<nat>, hashes: map<nat, Hash>): seq<nat>
    requires Hashed(files, hashes)
  {
    MarkedUpTo(files, hashes, Pairs(files))
  }

  /** The files among the first `n` that survive, in order. */
  function KeptUpTo(files: seq<nat>, hashes: map<nat, Hash>, n: nat): seq<nat>
    requires n <= |files| && Hashed(files, hashes)
  {
    if n == 0 then []
    else KeptUpTo(files, hashes, n - 1) + (if Keep(files, hashes, n - 1) then [files[n - 1]] else [])
  }

  /** The surviving files, in chronological order. */
  function Kept(files: seq<nat>, hashes: map<nat, Hash>): seq<nat>
    requires Hashed(files, hashes)
  {
    KeptUpTo(files, hashes, |files|)
  }

  // ---------------------------------------------------------------- lemmas

  /** Identical hashes (bit-identical images) are at distance 0, and only they. */
  lemma {:induction false} DiffCountZero(a: seq<bool>, b: seq<bool>)
    requires |a| == |b|
    ensures DiffCount(a, b) == 0 <==> a == b
  {
    if a != [] {
      DiffCountZero(a[1..], b[1..]);
      if a[0] == b[0] && a[1..] == b[1..] {
        assert a == [a[0]] + a[1..] && b == [b[0]] + b[1..];
      }
    }
  }

  lemma {:induction false} DiffCountSymmetric(a: seq<bool>, b: seq<bool>)
    requires |a| == |b|
    ensures DiffCount(a, b) == DiffCount(b, a)
  {
    if a != [] {
      DiffCountSymmetric(a[1..], b[1..]);
    }
  }

  /** Hash distance is a symmetric measure that vanishes exactly on equal hashes. */
  lemma DistanceProperties(a: Hash, b: Hash)
    ensures Distance(a, b) == 0 <==> a == b
    ensures Distance(a, b) == Distance(b, a)
    ensures a == b ==> Similar(a, b)
  {
    DiffCountZero(a, b);
    DiffCountSymmetric(a, b);
  }

  lemma IncreasingDistinct(files: seq<nat>, i: nat, j: nat)
    requires Increasing(files) && i < |files| && j < |files| && i != j
    ensures files[i] != files[j]
  {
    if i < j { assert files[i] < files[j]; } else { assert files[j] < files[i]; }
  }

  lemma {:induction false} MarkedUpToSpec(files: seq<nat>, hashes: map<nat, Hash>, n: nat)
    requires n < |files| || n == 0
    requires Hashed(files, hashes) && Increasing(files)
    ensures forall i :: 0 <= i < |files| ==>
      (files[i] in MarkedUpTo(files, hashes, n) <==> 1 <= i <= n && !Keep(files, hashes, i))
  {
    if n > 0 {
      MarkedUpToSpec(files, hashes, n - 1);
      forall i | 0 <= i < |files|
        ensures files[i] in MarkedUpTo(files, hashes, n) <==> 1 <= i <= n && !Keep(files, hashes, i)
      {
        if i != n {
          IncreasingDistinct(files, i, n);
        }
        MarkedStep(files, hashes, n, i);
      }
    }
  }

  /** One step of MarkedUpToSpec, for one file. */
  lemma MarkedStep(files: seq<nat>, hashes: map<nat, Hash>, n: nat, i: nat)
    requires 0 < n < |files| && i < |files| && Hashed(files, hashes)
    requires files[i] in MarkedUpTo(files, hashes, n - 1) <==> 1 <= i <= n - 1 && !Keep(files, hashes, i)
    requires i != n ==> files[i] != files[n]
    ensures files[i] in MarkedUpTo(files, hashes, n) <==> 1 <= i <= n && !Keep(files, hashes, i)
  {
    var prev := MarkedUpTo(files, hashes, n - 1);
    var tail := if Similar(hashes[files[n - 1]], hashes[files[n]]) then [files[n]] else [];
    assert MarkedUpTo(files, hashes, n) == prev + tail;
    assert Keep(files, hashes, n) <==> tail == [];
    assert files[i] in prev + tail <==> files[i] in prev || files[i] in tail;
  }

  lemma {:induction false} KeptUpToSpec(files: seq<nat>, hashes: map<nat, Hash>, n: nat)
    requires n <= |files|
    requires Hashed(files, hashes) && Increasing(files)
    ensures forall i :: 0 <= i < |files| ==>
      (files[i] in KeptUpTo(files, hashes, n) <==> i < n && Keep(files, hashes, i))
  {
    if n > 0 {
      KeptUpToSpec(files, hashes, n - 1);
      forall i | 0 <= i < |files|
        ensures files[i] in KeptUpTo(files, hashes, n) <==> i < n && Keep(files, hashes, i)
      {
        KeptStep(files, hashes, n, i);
      }
    }
  }

  /** One step of KeptUpToSpec, for one file. */
  lemma KeptStep(files: seq<nat>, hashes: map<nat, Hash>, n: nat, i: nat)
    requires 0 < n <= |files| && i < |files| && Hashed(files, hashes)
    requires files[i] in KeptUpTo(files, hashes, n - 1) <==> i < n - 1 && Keep(files, hashes, i)
    requires Increasing(files)
    ensures files[i] in KeptUpTo(files, hashes, n) <==> i < n && Keep(files, hashes, i)
  {
    if i != n - 1 {
      IncreasingDistinct(files, i, n - 1);
    }
    var prev := KeptUpTo(files, hashes, n - 1);
    var tail := if Keep(files, hashes, n - 1) then [files[n - 1]] else [];
    assert KeptUpTo(files, hashes, n) == prev + tail;
    assert files[i] in prev + tail <==> files[i] in prev || files[i] in tail;
  }

  /** The kept files among the first `n` come from those `n` files, in order. */
  lemma {:induction false} KeptUpToOrdered(files: seq<nat>, hashes: map<nat, Hash>, n: nat)
    requires n <= |files|
    requires Hashed(files, hashes) && Increasing(files)
    ensures forall k :: 0 <= k < |KeptUpTo(files, hashes, n)| ==>
      KeptUpTo(files, hashes, n)[k] in files[..n]
    ensures Increasing(KeptUpTo(files, hashes, n))
  {
    if n > 0 {
      KeptUpToOrdered(files, hashes, n - 1);
      KeptGrows(files, hashes, n - 1, n);
    }
  }

  /** One step of KeptUpToOrdered, from the first `m` files to the first `n = m + 1`. */
  lemma {:induction false} KeptGrows(files: seq<nat>, hashes: map<nat, Hash>, m: nat, n: nat)
    requires n == m + 1 <= |files|
    requires Hashed(files, hashes) && Increasing(files)
    requires forall k :: 0 <= k < |KeptUpTo(files, hashes, m)| ==>
      KeptUpTo(files, hashes, m)[k] in files[..m]
    requires Increasing(KeptUpTo(files, hashes, m))
    ensures forall k :: 0 <= k < |KeptUpTo(files, hashes, n)| ==>
      KeptUpTo(files, hashes, n)[k] in files[..n]
    ensures Increasing(KeptUpTo(files, hashes, n))
  {
    var prev := KeptUpTo(files, hashes, m);
    var r := KeptUpTo(files, hashes, n);
    var tail := if Keep(files, hashes, m) then [files[m]] else [];
    assert r == prev + tail;
    forall k | 0 <= k < |r| ensures r[k] in files[..n] && (k < |prev| ==> r[k] < files[m]) {
      if k < |prev| {
        assert r[k] == prev[k];
        var j :| 0 <= j < m && files[j] == prev[k];
        assert files[..n][j] == prev[k];
      } else {
        assert r[k] == files[m] == files[..n][m];
      }
    }
    forall i, j | 0 <= i < j < |r| ensures r[i] < r[j] {
      if j < |prev| {
        assert r[i] == prev[i] && r[j] == prev[j];
      }
    }
  }

  /** The filter's contract: files are read in ascending index order; the
      first always survives; file i (i >= 1) is removed exactly when its hash is
      under Threshold from file i - 1's original hash (so a distance of exactly 5
      keeps both); the survivors are the files not marked, in the original order. */
  lemma DedupCorrect(files: seq<nat>, hashes: map<nat, Hash>)
    requires Hashed(files, hashes) && Increasing(files)
    ensures forall i :: 0 <= i < |files| ==>
      (files[i] in Marked(files, hashes) <==> i > 0 && Distance(hashes[files[i - 1]], hashes[files[i]]) < Threshold)
    ensures forall i :: 0 <= i < |files| ==>
      (files[i] in Kept(files, hashes) <==> !(files[i] in Marked(files, hashes)))
    ensures forall x :: x in Marked(files, hashes) ==> x in files
    ensures forall x :: x in Kept(files, hashes) ==> x in files
    ensures |files| > 0 ==> |Kept(files, hashes)| > 0 && Kept(files, hashes)[0] == files[0]
    ensures Increasing(Kept(files, hashes))
  {
    DedupMarked(files, hashes);
    MarkedSubset(files, hashes);
    DedupKept(files, hashes);
    if |files| > 0 {
      KeptHead(files, hashes);
    }
  }

  lemma DedupMarked(files: seq<nat>, hashes: map<nat, Hash>)
    requires Hashed(files, hashes) && Increasing(files)
    ensures forall i :: 0 <= i < |files| ==>
      (files[i] in Marked(files, hashes) <==> i > 0 && Distance(hashes[files[i - 1]], hashes[files[i]]) < Threshold)
  {
    MarkedUpToSpec(files, hashes, Pairs(files));
  }

  lemma MarkedSubset(files: seq<nat>, hashes: map<nat, Hash>)
    requires Hashed(files, hashes)
    ensures forall x :: x in Marked(files, hashes) ==> x in files
  {
    forall x | x in Marked(files, hashes) ensures x in files {
      MarkedInFiles(files, hashes, Pairs(files), x);
    }
  }

  lemma DedupKept(files: seq<nat>, hashes: map<nat, Hash>)
    requires Hashed(files, hashes) && Increasing(files)
    ensures forall i :: 0 <= i < |files| ==>
      (files[i] in Kept(files, hashes) <==> !(files[i] in Marked(files, hashes)))
    ensures forall x :: x in Kept(files, hashes) ==> x in files
    ensures Increasing(Kept(files, hashes))
  {
    KeptUpToSpec(files, hashes, |files|);
    KeptUpToOrdered(files, hashes, |files|);
    MarkedUpToSpec(files, hashes, Pairs(files));
    assert files[..|files|] == files;
  }

  /** The first file is kept, and nothing kept comes before it. */
  lemma KeptHead(files: seq<nat>, hashes: map<nat, Hash>)
    requires Hashed(files, hashes) && Increasing(files) && |files| > 0
    ensures |Kept(files, hashes)| > 0 && Kept(files, hashes)[0] == files[0]
  {
    KeptUpToSpec(files, hashes, |files|);
    KeptUpToOrdered(files, hashes, |files|);
    assert files[..|files|] == files;
    var kept := Kept(files, hashes);
    assert files[0] in kept;
    assert forall m :: 0 <= m < |kept| ==> kept[0] <= kept[m];
    assert forall m :: 0 <= m < |files| ==> files[0] <= files[m];
    assert kept[0] in files;
  }

  lemma {:induction false} MarkedInFiles(files: seq<nat>, hashes: map<nat, Hash>, n: nat, x: nat)
    requires n < |files| || n == 0
    requires Hashed(files, hashes)
    requires x in MarkedUpTo(files, hashes, n)
    ensures x in files
  {
    if x !in MarkedUpTo(files, hashes, n - 1) {
      assert x == files[n];
    } else {
      MarkedInFiles(files, hashes, n - 1, x);
    }
  }
}

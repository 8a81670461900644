/**
 * The hash/byte-slice codec of the remote chunk-storage client: it turns
 * hashes into the raw byte slices sent on the wire, and parses byte slices
 * received from the wire back into hashes.
 *
 * Go's nil and empty slices (and nil and empty HashSets) are both the empty
 * sequence (set) here.
 */
module RemoteStorage {
  import opened StoreHash

  /** Every slice has the width of a hash, so each can be parsed as one. */
  predicate AllHashWidth(slices: seq<seq<byte>>)
  {
    forall i :: 0 <= i < |slices| ==> |slices[i]| == ByteLen
  }

  /** No value occurs twice. */
  predicate Distinct<T(==)>(s: seq<T>)
  {
    forall i, j :: 0 <= i < j < |s| ==> s[i] != s[j]
  }

  // ---------------------------------------------------------------------
  // Specification functions
  // ---------------------------------------------------------------------

  /** The wire forms of a sequence of hashes, in the same order. */
  function ToSlices(hashes: seq<Hash>): (r: seq<seq<byte>>)
  {
    if hashes == [] then []
    else ToSlices(hashes[..|hashes| - 1]) + [Bytes(hashes[|hashes| - 1])]
  }

  /** The set of hashes that a sequence of well-formed slices spells out. */
  function ParsedSet(slices: seq<seq<byte>>): (r: set<Hash>)
    requires AllHashWidth(slices)
  {
    if slices == [] then {}
    else ParsedSet(slices[..|slices| - 1]) + {New(slices[|slices| - 1])}
  }

  // ---------------------------------------------------------------------
  // Properties of the specification functions
  // ---------------------------------------------------------------------

  /** ToSlices keeps the length, and position i holds the bytes of hash i. */
  lemma {:induction false} ToSlicesAt(hashes: seq<Hash>)
    ensures |ToSlices(hashes)| == |hashes|
    ensures forall i :: 0 <= i < |hashes| ==> ToSlices(hashes)[i] == Bytes(hashes[i])
  {
    if hashes != [] {
      ToSlicesAt(hashes[..|hashes| - 1]);
    }
  }

  /** The wire forms are all as wide as a hash. */
  lemma {:induction false} ToSlicesWidth(hashes: seq<Hash>)
    ensures AllHashWidth(ToSlices(hashes))
  {
    ToSlicesAt(hashes);
  }

  /** No duplicates are introduced or removed: distinct hashes have distinct wire forms and back. */
  lemma ToSlicesDistinct(hashes: seq<Hash>)
    ensures Distinct(hashes) <==> Distinct(ToSlices(hashes))
  {
    ToSlicesAt(hashes);
    var slices := ToSlices(hashes);
    if Distinct(hashes) {
      forall i, j | 0 <= i < j < |slices| ensures slices[i] != slices[j] {
        BytesInjective(hashes[i], hashes[j]);
      }
    }
    if Distinct(slices) {
      forall i, j | 0 <= i < j < |hashes| ensures hashes[i] != hashes[j] {
        assert slices[i] != slices[j];
      }
    }
  }

  /** A hash is parsed out of the slices exactly when its bytes occur among them. */
  lemma {:induction false} ParsedSetMembers(slices: seq<seq<byte>>, h: Hash)
    requires AllHashWidth(slices)
    ensures h in ParsedSet(slices) <==> exists i :: 0 <= i < |slices| && slices[i] == Bytes(h)
  {
    if slices != [] {
      var n := |slices| - 1;
      var prefix := slices[..n];
      ParsedSetMembers(prefix, h);
      if h in ParsedSet(slices) {
        if h in ParsedSet(prefix) {
          var i :| 0 <= i < |prefix| && prefix[i] == Bytes(h);
          assert slices[i] == Bytes(h);
        } else {
          assert slices[n] == Bytes(h);
        }
      }
      if exists i :: 0 <= i < |slices| && slices[i] == Bytes(h) {
        var i :| 0 <= i < |slices| && slices[i] == Bytes(h);
        if i < n {
          assert prefix[i] == Bytes(h);
        } else {
          assert New(slices[n]) == h;
        }
      }
    }
  }

  /** Parsing never yields more hashes than there are slices. */
  lemma {:induction false} ParsedSetAtMost(slices: seq<seq<byte>>)
    requires AllHashWidth(slices)
    ensures |ParsedSet(slices)| <= |slices|
  {
    if slices != [] {
      ParsedSetAtMost(slices[..|slices| - 1]);
    }
  }

  /** Pairwise distinct slices parse to exactly as many hashes as there are slices. */
  lemma {:induction false} ParsedSetSize(slices: seq<seq<byte>>)
    requires AllHashWidth(slices)
    requires Distinct(slices)
    ensures |ParsedSet(slices)| == |slices|
  {
    if slices != [] {
      var n := |slices| - 1;
      var prefix := slices[..n];
      ParsedSetSize(prefix);
      var h := New(slices[n]);
      forall i | 0 <= i < |prefix| ensures prefix[i] != Bytes(h) {
        assert slices[i] != slices[n];
      }
      ParsedSetMembers(prefix, h);
    }
  }

  /** Round trip: parsing the wire forms of some hashes gives back exactly those hashes. */
  lemma {:induction false} ParsedSetOfSlices(hashes: seq<Hash>)
    ensures AllHashWidth(ToSlices(hashes))
    ensures forall h :: h in ParsedSet(ToSlices(hashes)) <==> h in hashes
  {
    ToSlicesAt(hashes);
    var slices := ToSlices(hashes);
    forall h ensures h in ParsedSet(slices) <==> h in hashes {
      ParsedSetMembers(slices, h);
      if h in hashes {
        var i :| 0 <= i < |hashes| && hashes[i] == h;
        assert slices[i] == Bytes(h);
      }
      if h in ParsedSet(slices) {
        var i :| 0 <= i < |slices| && slices[i] == Bytes(h);
        BytesInjective(hashes[i], h);
      }
    }
  }

  /** The one-hash cases of the tests: the zero hash and its ByteLen zero bytes. */
  lemma ZeroHashCase()
    ensures ToSlices([Zero()]) == [seq(ByteLen, _ => 0)]
    ensures ParsedSet([Bytes(Zero())]) == {Zero()}
  {
    assert [Zero()][..0] == [];
    assert [Bytes(Zero())][..0] == [];
  }

  // ---------------------------------------------------------------------
  // The codec
  // ---------------------------------------------------------------------

  /**
   * HashesToSlices: the wire form of each hash, position by position.
   * An empty input gives an empty result; duplicates stay where they are.
   */
  method HashesToSlices(hashes: seq<Hash>) returns (slices: seq<seq<byte>>)
    ensures |slices| == |hashes|
    ensures forall i :: 0 <= i < |hashes| ==> slices[i] == Bytes(hashes[i])
    ensures slices == ToSlices(hashes)
  {
    slices := [];
    for i := 0 to |hashes|
      invariant slices == ToSlices(hashes[..i])
    {
      assert hashes[..i + 1][..i] == hashes[..i];
      slices := slices + [Bytes(hashes[i])];
    }
    assert hashes[..|hashes|] == hashes;
    ToSlicesAt(hashes);
  }

  /**
   * HashSetToSlices: enumerates a set into a sequence of its hashes and the
   * parallel sequence of their wire forms, in one pass. The order of the
   * set's elements is whatever the enumeration picks.
   */
  method HashSetToSlices(hashSet: set<Hash>) returns (hashes: seq<Hash>, slices: seq<seq<byte>>)
    ensures |hashes| == |hashSet| && |slices| == |hashSet|
    ensures forall i :: 0 <= i < |hashes| ==> hashes[i] in hashSet
    ensures forall h :: h in hashSet ==> h in hashes
    ensures Distinct(hashes)
    ensures forall i :: 0 <= i < |slices| ==> slices[i] == Bytes(hashes[i])
    ensures slices == ToSlices(hashes)
  {
    hashes, slices := [], [];
    var rest := hashSet;
    while rest != {}
      invariant |slices| == |hashes|
      invariant |hashes| + |rest| == |hashSet|
      invariant rest <= hashSet
      invariant forall i :: 0 <= i < |hashes| ==> hashes[i] in hashSet && hashes[i] !in rest
      invariant forall h :: h in hashSet ==> h in rest || h in hashes
      invariant Distinct(hashes)
      invariant slices == ToSlices(hashes)
      decreases |rest|
    {
      var h :| h in rest;
      assert (hashes + [h])[..|hashes|] == hashes;
      hashes := hashes + [h];
      slices := slices + [Bytes(h)];
      rest := rest - {h};
    }
    ToSlicesAt(hashes);
  }

  /**
   * ParseByteSlices: the set of hashes the slices spell out, and for each
   * of them the position of a slice holding its bytes. Which position is
   * recorded when a hash occurs more than once is not promised.
   */
  method ParseByteSlices(slices: seq<seq<byte>>) returns (hashSet: set<Hash>, hashToIndex: map<Hash, nat>)
    requires AllHashWidth(slices)
    ensures hashSet == ParsedSet(slices)
    ensures forall i :: 0 <= i < |slices| ==> New(slices[i]) in hashSet
    ensures forall h :: h in hashSet ==> h in hashToIndex
    ensures forall h :: h in hashToIndex ==> h in hashSet
    ensures forall h :: h in hashToIndex ==> hashToIndex[h] < |slices| && slices[hashToIndex[h]] == Bytes(h)
    ensures |hashSet| <= |slices|
    ensures Distinct(slices) ==> |hashSet| == |slices|
    ensures Distinct(slices) ==>
      forall i :: 0 <= i < |slices| ==> New(slices[i]) in hashToIndex && hashToIndex[New(slices[i])] == i
  {
    hashSet, hashToIndex := {}, map[];
    for i := 0 to |slices|
      invariant AllHashWidth(slices[..i])
      invariant hashSet == ParsedSet(slices[..i])
      invariant forall k :: 0 <= k < i ==> New(slices[k]) in hashSet
      invariant hashToIndex.Keys == hashSet
      invariant forall h :: h in hashToIndex ==> hashToIndex[h] < i && slices[hashToIndex[h]] == Bytes(h)
    {
      assert slices[..i + 1][..i] == slices[..i];
      var h := New(slices[i]);
      hashSet := hashSet + {h};
      hashToIndex := hashToIndex[h := i];
    }
    assert slices[..|slices|] == slices;
    ParsedSetAtMost(slices);
    if Distinct(slices) {
      ParsedSetSize(slices);
    }
  }
}

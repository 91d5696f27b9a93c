/**
 * The `match` workflow: keep the plaintext addresses whose hash occurs in
 * a previously hashed list, writing them under the header `matched_address`.
 */
module Matcher {
  import opened PyValues
  import opened KeyStore
  import opened Hashing
  import opened Rows
  import opened BatchHasher

  /** The header of the matched output file. */
  const MatchedHeader := "matched_address"

  /**
   * Whether the hash of `address` is in the hashed list. A failed hash is
   * None, which is never an element of a list of strings. The membership
   * test agrees with `_verify_hash`: an address hits exactly when some entry
   * of the list verifies as its hash.
   */
  predicate Hit(h: Hasher, key: Key, address: string, hashed: seq<string>)
    ensures Hit(h, key, address, hashed) <==> exists d :: d in hashed && VerifyHash(h, key, address, d)
  {
    var current := h(key, address);
    current.Some? && current.value in hashed
  }

  /** The addresses whose hash is in `hashed`, in input order. */
  function Matches(addresses: seq<string>, hashed: seq<string>, key: Key, h: Hasher): (r: seq<string>)
    ensures |r| <= |addresses|
  {
    if addresses == [] then []
    else
      (if Hit(h, key, addresses[0], hashed) then [addresses[0]] else [])
        + Matches(addresses[1..], hashed, key, h)
  }

  /** An address is matched exactly when it is in the input and its hash is in the hashed list. */
  lemma MatchesMembers(addresses: seq<string>, hashed: seq<string>, key: Key, h: Hasher)
    ensures forall a :: a in Matches(addresses, hashed, key, h) <==> a in addresses && Hit(h, key, a, hashed)
  {
    MatchesCounts(addresses, hashed, key, h);
    assert forall a :: a in Matches(addresses, hashed, key, h) <==> multiset(Matches(addresses, hashed, key, h))[a] > 0;
  }

  /**
   * Duplicates are kept: every address occurs in the result as often as in
   * the input if it hits, and not at all otherwise.
   */
  lemma {:induction false} MatchesCounts(addresses: seq<string>, hashed: seq<string>, key: Key, h: Hasher)
    ensures forall a :: multiset(Matches(addresses, hashed, key, h))[a]
                          == if Hit(h, key, a, hashed) then multiset(addresses)[a] else 0
  {
    if addresses != [] {
      assert addresses == [addresses[0]] + addresses[1..];
      MatchesCounts(addresses[1..], hashed, key, h);
    }
  }

  /** Why a match run fails: a file without even a header row. */
  datatype MatchError = AddressesMissingHeader | HashedMissingHeader

  /** The matched output file and the reported number of matches. */
  datatype MatchReport = MatchReport(written: Table, count: nat)

  /**
   * `match_addresses`: both files are read in full, header skipped, before
   * anything is written; a file without a header fails the run and writes
   * nothing.
   */
  function MatchAddresses(addressesFile: Table, hashedFile: Table, key: Key, h: Hasher)
    : (r: Result<MatchReport, MatchError>)
    ensures addressesFile == [] ==> r == Err(AddressesMissingHeader)
    ensures addressesFile != [] && hashedFile == [] ==> r == Err(HashedMissingHeader)
    ensures addressesFile != [] && hashedFile != [] ==> r.Ok?
    ensures r.Ok? ==>
              var matched := Matches(Column0(addressesFile[1..]), Column0(hashedFile[1..]), key, h);
              r.value.written == [[MatchedHeader]] + SingletonRows(matched) &&
              r.value.count == |matched|
    ensures r.Ok? ==>
              Column0(r.value.written[1..])
                == Matches(Column0(addressesFile[1..]), Column0(hashedFile[1..]), key, h)
  {
    if addressesFile == [] then Err(AddressesMissingHeader)
    else if hashedFile == [] then Err(HashedMissingHeader)
    else
      var matched := Matches(Column0(addressesFile[1..]), Column0(hashedFile[1..]), key, h);
      Column0OfSingletonRows(matched);
      assert ([[MatchedHeader]] + SingletonRows(matched))[1..] == SingletonRows(matched);
      Ok(MatchReport([[MatchedHeader]] + SingletonRows(matched), |matched|))
  }

  /**
   * The matching loop of `match_addresses`: header first, then each hit
   * address as a single-cell row, counting as it goes.
   */
  method WriteMatches(addresses: seq<string>, hashed: seq<string>, key: Key, h: Hasher)
    returns (written: Table, count: nat)
    ensures written == [[MatchedHeader]] + SingletonRows(Matches(addresses, hashed, key, h))
    ensures Column0(written[1..]) == Matches(addresses, hashed, key, h)
    ensures count == |Matches(addresses, hashed, key, h)|
  {
    written := [[MatchedHeader]];
    count := 0;
    ghost var matched: seq<string> := [];
    var i := 0;
    while i < |addresses|
      invariant 0 <= i <= |addresses|
      invariant matched == Matches(addresses[..i], hashed, key, h)
      invariant written == [[MatchedHeader]] + SingletonRows(matched)
      invariant count == |matched|
    {
      var address := addresses[i];
      var current := h(key, address);
      MatchesSnoc(addresses[..i], address, hashed, key, h);
      if current.Some? && current.value in hashed {
        SingletonRowsAppend(matched, [address]);
        count := count + 1;
        written := written + [[address]];
        matched := matched + [address];
      }
      assert addresses[..i + 1] == addresses[..i] + [address];
      i := i + 1;
    }
    assert addresses[..i] == addresses;
    Column0OfSingletonRows(matched);
  }

  /** Matching keeps input order: it distributes over concatenation. */
  lemma {:induction false} MatchesAppend(a: seq<string>, b: seq<string>, hashed: seq<string>, key: Key, h: Hasher)
    ensures Matches(a + b, hashed, key, h) == Matches(a, hashed, key, h) + Matches(b, hashed, key, h)
  {
    if a == [] {
      assert a + b == b;
    } else {
      var head := if Hit(h, key, a[0], hashed) then [a[0]] else [];
      assert (a + b)[0] == a[0];
      assert (a + b)[1..] == a[1..] + b;
      assert Matches(a + b, hashed, key, h) == head + Matches(a[1..] + b, hashed, key, h);
      MatchesAppend(a[1..], b, hashed, key, h);
      assert Matches(a, hashed, key, h) == head + Matches(a[1..], hashed, key, h);
    }
  }

  /** Matching one more address appends it exactly when it hits. */
  lemma MatchesSnoc(a: seq<string>, address: string, hashed: seq<string>, key: Key, h: Hasher)
    ensures Matches(a + [address], hashed, key, h)
              == Matches(a, hashed, key, h) + (if Hit(h, key, address, hashed) then [address] else [])
  {
    MatchesAppend(a, [address], hashed, key, h);
    assert [address][1..] == [];
  }

  /** An address whose hashing fails is never matched. */
  lemma FailedHashNeverMatches(h: Hasher, key: Key, address: string, addresses: seq<string>, hashed: seq<string>)
    requires h(key, address) == None
    ensures address !in Matches(addresses, hashed, key, h)
  {
    MatchesMembers(addresses, hashed, key, h);
  }

  /** When every address hits, matching keeps all of them. */
  lemma {:induction false} MatchesAllHit(addresses: seq<string>, hashed: seq<string>, key: Key, h: Hasher)
    requires forall a :: a in addresses ==> Hit(h, key, a, hashed)
    ensures Matches(addresses, hashed, key, h) == addresses
  {
    if addresses != [] {
      MatchesAllHit(addresses[1..], hashed, key, h);
      assert [addresses[0]] + addresses[1..] == addresses;
    }
  }

  /**
   * Round trip on columns: with a hash that never fails, matching the
   * addresses against their own digests keeps every one of them, in order.
   */
  lemma RoundTrip(body: Table, key: Key, h: Hasher)
    requires HashesAll(h, key, Column0(body))
    ensures Matches(Column0(body), HashRows(body, key, h), key, h) == Column0(body)
  {
    var addresses := Column0(body);
    var digests := HashRows(body, key, h);
    HashRowsTotal(body, key, h);
    forall a | a in addresses
      ensures Hit(h, key, a, digests)
    {
      var i :| 0 <= i < |addresses| && addresses[i] == a;
      assert digests[i] in digests;
    }
    MatchesAllHit(addresses, digests, key, h);
  }

  /**
   * Matching a plaintext file, under `matchKey`, against the output of a
   * completed hash run under `hashKey` writes the header and then the
   * plaintext addresses whose hash is among the digests of the hashed input.
   */
  lemma MatchAgainstHashRun(input: Table, plain: Table, hashKey: Key, matchKey: Key, h: Hasher)
    requires input != [] && plain != []
    ensures var run := ProcessAddresses(input, hashKey, h);
            var matched := Matches(Column0(plain[1..]), HashRows(input[1..], hashKey, h), matchKey, h);
            MatchAddresses(plain, run.written, matchKey, h)
              == Ok(MatchReport([[MatchedHeader]] + SingletonRows(matched), |matched|))
  {
    HashedColumn(input, hashKey, h);
  }

  /**
   * Round trip on files: hashing an address file and matching the same
   * file against the result, under the same key and a hash that never
   * fails, reports every address with cells, in order.
   */
  lemma FileRoundTrip(input: Table, key: Key, h: Hasher)
    requires input != []
    requires HashesAll(h, key, Column0(input[1..]))
    ensures var run := ProcessAddresses(input, key, h);
            var addresses := Column0(input[1..]);
            run.completed &&
            MatchAddresses(input, run.written, key, h)
              == Ok(MatchReport([[MatchedHeader]] + SingletonRows(addresses), |addresses|))
  {
    MatchAgainstHashRun(input, input, key, key, h);
    RoundTrip(input[1..], key, h);
  }

  /**
   * When hashing succeeds on every address of `body`, and no plaintext
   * address shares its hash with a different address of `body`, matching
   * against the digests of `body` keeps exactly the plaintext addresses that
   * occur in `body`, each as often as in the input.
   */
  lemma MatchesIsIntersection(plain: seq<string>, body: Table, key: Key, h: Hasher)
    requires HashesAll(h, key, Column0(body))
    requires forall a, b :: a in plain && b in Column0(body) && h(key, a) == h(key, b) ==> a == b
    ensures forall a :: multiset(Matches(plain, HashRows(body, key, h), key, h))[a]
                          == if a in Column0(body) then multiset(plain)[a] else 0
  {
    var digests := HashRows(body, key, h);
    HashRowsTotal(body, key, h);
    HashRowsSound(body, key, h);
    MatchesCounts(plain, digests, key, h);
    forall a | a in plain
      ensures Hit(h, key, a, digests) <==> a in Column0(body)
    {
      if a in Column0(body) {
        var i :| 0 <= i < |Column0(body)| && Column0(body)[i] == a;
        assert digests[i] in digests;
      }
    }
  }

  /** When no address hits, nothing is matched. */
  lemma {:induction false} MatchesNoneHit(addresses: seq<string>, hashed: seq<string>, key: Key, h: Hasher)
    requires forall a :: a in addresses ==> !Hit(h, key, a, hashed)
    ensures Matches(addresses, hashed, key, h) == []
  {
    if addresses != [] {
      MatchesNoneHit(addresses[1..], hashed, key, h);
    }
  }

  /**
   * Matching under a key whose hashes of the plaintext addresses share no
   * value with the hashes, under the key the hashed file was made with, of
   * that file's addresses writes only the header, even when the same
   * addresses occur in both files.
   */
  lemma DifferentKeyMatchesNothing(input: Table, plain: Table, hashKey: Key, matchKey: Key, h: Hasher)
    requires input != [] && plain != []
    requires forall a, b ::
               a in Column0(plain[1..]) && b in Column0(input[1..]) && h(matchKey, a).Some? ==>
                 h(matchKey, a) != h(hashKey, b)
    ensures var run := ProcessAddresses(input, hashKey, h);
            MatchAddresses(plain, run.written, matchKey, h) == Ok(MatchReport([[MatchedHeader]], 0))
  {
    var digests := HashRows(input[1..], hashKey, h);
    HashRowsSound(input[1..], hashKey, h);
    MatchesNoneHit(Column0(plain[1..]), digests, matchKey, h);
    MatchAgainstHashRun(input, plain, hashKey, matchKey, h);
    assert [[MatchedHeader]] + SingletonRows([]) == [[MatchedHeader]];
  }

  /**
   * A worked example: hashing "123 Main St" and
   * "456 Oak Ave", then matching "123 Main St" and "789 Pine Rd" under the
   * same key, reports "123 Main St" alone, given that hashing succeeds on
   * the three addresses and "789 Pine Rd" collides with neither of the
   * other two.
   */
  lemma WorkedExample(key: Key, h: Hasher)
    requires h(key, "123 Main St").Some? && h(key, "456 Oak Ave").Some?
    requires h(key, "789 Pine Rd").Some?
    requires h(key, "789 Pine Rd") != h(key, "123 Main St")
    requires h(key, "789 Pine Rd") != h(key, "456 Oak Ave")
    ensures var run := ProcessAddresses([["address"], ["123 Main St"], ["456 Oak Ave"]], key, h);
            MatchAddresses([["address"], ["123 Main St"], ["789 Pine Rd"]], run.written, key, h)
              == Ok(MatchReport([[MatchedHeader], ["123 Main St"]], 1))
  {
    var input: Table := [["address"], ["123 Main St"], ["456 Oak Ave"]];
    var plain: Table := [["address"], ["123 Main St"], ["789 Pine Rd"]];
    var digests := [h(key, "123 Main St").value, h(key, "456 Oak Ave").value];
    TwoAddressColumns("123 Main St", "456 Oak Ave", key, h);
    TwoAddressColumns("123 Main St", "789 Pine Rd", key, h);
    assert Matches(["123 Main St", "789 Pine Rd"], digests, key, h) == ["123 Main St"] by {
      assert Hit(h, key, "123 Main St", digests);
      assert !Hit(h, key, "789 Pine Rd", digests);
      assert ["123 Main St", "789 Pine Rd"][1..] == ["789 Pine Rd"];
      assert ["789 Pine Rd"][1..] == [];
    }
    MatchAgainstHashRun(input, plain, key, key, h);
    assert [[MatchedHeader]] + SingletonRows(["123 Main St"]) == [[MatchedHeader], ["123 Main St"]];
  }

  /** The address column and digests of a two-address file whose hashing succeeds. */
  lemma TwoAddressColumns(x: string, y: string, key: Key, h: Hasher)
    requires h(key, x).Some? && h(key, y).Some?
    ensures Column0([[x], [y]]) == [x, y]
    ensures HashRows([[x], [y]], key, h) == [h(key, x).value, h(key, y).value]
  {
    var body: Table := [[x], [y]];
    assert body[1..] == [[y]] && body[1..][1..] == [];
    assert RowDigest([x], key, h) == [h(key, x).value];
    assert RowDigest([y], key, h) == [h(key, y).value];
    assert HashRows(body[1..], key, h) == [h(key, y).value];
  }

  /**
   * Two invocations without a key argument: the first hashes `input` under
   * the key it resolves (loading or generating the key file), the second
   * resolves again from the key file left behind and matches `input`
   * against the first one's output. Every address with cells is reported.
   */
  lemma RoundTripAcrossRuns(input: Table, file: KeyFile, drawn1: Key, drawn2: Key, h: Hasher)
    requires input != []
    requires |drawn1| == GeneratedKeyLength && |drawn2| == GeneratedKeyLength
    requires HashesAll(h, Resolve(None, file, drawn1).key, Column0(input[1..]))
    ensures var first := Resolve(None, file, drawn1);
            var run := ProcessAddresses(input, first.key, h);
            var second := Resolve(None, first.file, drawn2);
            var addresses := Column0(input[1..]);
            MatchAddresses(input, run.written, second.key, h)
              == Ok(MatchReport([[MatchedHeader]] + SingletonRows(addresses), |addresses|))
  {
    ResolveIsStable(None, None, file, drawn1, drawn2);
    FileRoundTrip(input, Resolve(None, file, drawn1).key, h);
  }
}

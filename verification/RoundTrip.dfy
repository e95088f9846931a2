/** End to end: what was added is what an opened file iterates, looks up and searches. */
module RoundTrip {
  import opened Bits
  import opened Results
  import opened Keys
  import opened Values
  import opened Trie
  import opened TrieBuild
  import opened Dictionary
  import opened Iteration
  import opened IterateAll
  import opened IterationDepth
  import opened PrefixSearch
  import opened PrefixFinds
  import opened Lookup
  import opened LookupAgrees
  import opened Straying
  import opened EntryOrder
  import opened SymbolTable
  import opened FileFormat
  import opened FileContents
  import opened Encoder
  import opened FileWriter
  import opened Damage
  import BindingDecoder

  /** A file came out of a build of the additions, with a stable sort in between. */
  ghost predicate Built(added: seq<Entry>, outcome: seq<Entry>, file: seq<byte>) {
    && Ordered(outcome) && Stable(added, outcome) && |outcome| < 0x1_0000_0000
    && (forall e :: e in outcome ==> Typed(e.val))
    && Sorted(KeepLast(outcome)) && BuildResult(KeepLast(outcome)) == Ok(file)
  }

  /** Building succeeds exactly for representable entries. */
  lemma BuildSucceeds(es: seq<Entry>)
    requires Sorted(es) && |es| < 0x1_0000_0000 && forall e :: e in es ==> Typed(e.val)
    ensures BuildResult(es).Ok? <==> Representable(es)
    ensures Representable(es) ==> BuildResult(es) == Ok(FileOf(es))
  {
    hide DataBits, FileOf, TableOf, Sorted, Encodable, Typed, Storable;
    if |UsedFrom(es, 0)| <= MAX_ALPHABET_SIZE {
      AlphabetCovers(es);
      if AllStorable(es) {
        AllEncodable(es);
      } else {
        var i :| 0 <= i < |es| && !Storable(es[i].val);
        NotEncodable(es[i].val);
      }
    }
  }

  /** When it fails: too many distinct bytes first, then an array or a dictionary among the values,
      then a stream of 2^32 bits or more. */
  lemma BuildErrors(es: seq<Entry>)
    requires Sorted(es) && |es| < 0x1_0000_0000 && forall e :: e in es ==> Typed(e.val)
    ensures BuildResult(es) == Err(Alphabet) <==> |UsedFrom(es, 0)| > 249
    ensures BuildResult(es) == Err(InvalidParam)
       <==> |UsedFrom(es, 0)| <= 249 && exists i :: 0 <= i < |es| && (es[i].val.ArrayValue? || es[i].val.DictValue?)
    ensures BuildResult(es) == Err(Overflow) ==> Shaped(TableFor(es)) && |DataBits(es)| >= 0x1_0000_0000
    ensures BuildResult(es).Err? ==> BuildResult(es).error in {Alphabet, InvalidParam, Overflow}
  {
    hide DataBits, FileOf, TableOf, Sorted;
    if |UsedFrom(es, 0)| <= 249 {
      AlphabetCovers(es);
      CanonicalShaped(TableFor(es));
    }
  }

  lemma NotEncodable(v: Value)
    requires !Storable(v)
    ensures !Encodable(v)
  {
  }

  /** What is left of the additions: the last one of every key, sorted by key. */
  function Kept(added: seq<Entry>): seq<Entry> {
    KeepLast(InsertionSorted(added))
  }

  lemma KeptSorted(added: seq<Entry>)
    ensures Sorted(Kept(added)) && |Kept(added)| <= |added| && AsMap(Kept(added)) == AsMap(added)
    ensures forall e :: e in Kept(added) ==> e in added
  {
    hide Sorted, Ordered, Stable, KeepLast, InsertionSorted, AsMap;
    var outcome := InsertionSorted(added);
    InsertionSortStable(added);
    KeepLastSorted(outcome);
    KeptFrom(outcome);
    KeepLastMap(outcome);
    StableSameMap(added, outcome);
    SortedFrom(added);
  }

  lemma SortedFrom(added: seq<Entry>)
    ensures |InsertionSorted(added)| == |added| && forall e :: e in InsertionSorted(added) ==> e in added
  {
    hide InsertionSorted;
    var outcome := InsertionSorted(added);
    assert |multiset(outcome)| == |outcome| && |multiset(added)| == |added|;
    forall e | e in outcome ensures e in added {
      SameMembers(added, outcome, e);
    }
  }

  /** Some stable sort leads to a file if and only if what is left of the additions is
      representable; and then all of them lead to the same file. */
  lemma BuiltExactly(added: seq<Entry>)
    requires |added| < 0x1_0000_0000 && forall e :: e in added ==> Typed(e.val)
    ensures Representable(Kept(added)) ==> Built(added, InsertionSorted(added), FileOf(Kept(added)))
    ensures forall outcome, file :: Built(added, outcome, file) ==> Representable(Kept(added)) && file == FileOf(Kept(added))
  {
    hide Built, Representable, FileOf, Kept, Typed, InsertionSorted;
    if Representable(Kept(added)) {
      KeptBuilt(added);
    }
    forall outcome, file | Built(added, outcome, file)
      ensures Representable(Kept(added)) && file == FileOf(Kept(added))
    {
      OneFile(added, outcome, file);
    }
  }

  lemma KeptBuilt(added: seq<Entry>)
    requires |added| < 0x1_0000_0000 && forall e :: e in added ==> Typed(e.val)
    requires Representable(Kept(added))
    ensures Built(added, InsertionSorted(added), FileOf(Kept(added)))
  {
    hide Representable, FileOf, Typed, InsertionSorted, Sorted, Ordered, Stable, KeepLast, BuildResult, AsMap;
    KeptSorted(added);
    SortedFrom(added);
    InsertionSortStable(added);
    BuildSucceeds(Kept(added));
  }

  lemma OneFile(added: seq<Entry>, outcome: seq<Entry>, file: seq<byte>)
    requires Built(added, outcome, file)
    ensures Representable(Kept(added)) && file == FileOf(Kept(added))
  {
    hide Representable, FileOf, Typed, InsertionSorted, Sorted, Ordered, Stable, KeepLast, BuildResult, AsMap, Kept;
    var es := KeepLast(outcome);
    KeepLastSorted(outcome);
    KeptFrom(outcome);
    KeepLastMap(outcome);
    StableSameMap(added, outcome);
    KeptSorted(added);
    SortedUnique(es, Kept(added));
    BuildSucceeds(es);
  }

  /** Opening the file yields a dictionary that holds the map of the additions, the last one of
      a key winning, as a strictly sorted entry list. */
  lemma BuiltOpens(added: seq<Entry>, outcome: seq<Entry>, file: seq<byte>, check: bool) returns (d: Dict, es: seq<Entry>)
    requires Built(added, outcome, file)
    ensures Open(file, check) == Ok(d) && Encodes(d, es)
    ensures Sorted(es) && AsMap(es) == AsMap(added)
  {
    hide FileOf, DictOf, Sorted, KeepLast, Ordered, Stable, Representable, Writable, OffsetsFit, Encodes, BuildResult;
    es := KeepLast(outcome);
    KeepLastSorted(outcome);
    KeptFrom(outcome);
    BuildSucceeds(es);
    RepresentableFits(es);
    OpenFile(es, check);
    FileEncodes(es);
    KeepLastMap(outcome);
    StableSameMap(added, outcome);
    d := DictOf(es);
  }

  /** A file that was damaged within 32 bits, before its checksum or in it, is refused: for its magic
      or its version if the damage is there, and otherwise for its checksum. */
  lemma BuiltDamaged(added: seq<Entry>, outcome: seq<Entry>, file: seq<byte>, damaged: seq<byte>, i: nat)
    requires Built(added, outcome, file) && DamagedAt(damaged, file, i)
    requires i + 32 <= 8 * (|file| - 4) || 8 * (|file| - 4) <= i
    ensures |file| == |damaged| >= 36
    ensures var e := if damaged[..4] != file[..4] then BadMagic else if damaged[4] != file[4] then Version else Corrupt;
            Open(damaged, true) == Err(e) && BindingDecoder.DecodeMap(damaged) == Err(e)
    ensures i >= 40 ==> Open(damaged, true) == Err(Corrupt) && BindingDecoder.DecodeMap(damaged) == Err(Corrupt)
  {
    hide Built, Representable, FileOf, Sealed, DamagedAt, Open, BindingDecoder.DecodeMap, Sorted;
    OneFile(added, outcome, file);
    RepresentableFits(Kept(added));
    FileSealed(Kept(added));
    SealedLength(file);
    LengthKept(damaged, file, i);
    DamageRefused(file, damaged, i);
  }

  /** Iteration lists the map: every key once, ascending, with its last value, and then the end;
      if and only if the trie nests at most 256 branches. Keys of at most 256 bytes never nest
      deeper, and keys that are prefixes of one another do if there are more than 257. */
  lemma BuiltIterates(added: seq<Entry>, outcome: seq<Entry>, file: seq<byte>, check: bool) returns (d: Dict, es: seq<Entry>)
    requires Built(added, outcome, file)
    ensures Open(file, check) == Ok(d) && Sorted(es) && AsMap(es) == AsMap(added)
    ensures Lists(d, Iterate(d), es, 0, |es|) <==> (es != [] ==> Depth(TrieOf(es, d.hasValues, 0, |es|, 0)) <= 256)
    ensures NoLonger(es, 0, |es|, 256) ==> Lists(d, Iterate(d), es, 0, |es|)
    ensures Nested(es) ==> (Lists(d, Iterate(d), es, 0, |es|) <==> |es| <= 257)
  {
    hide Built, Encodes, Sorted, Depth, TrieOf, Lists, Open, Nested, NoLonger;
    d, es := BuiltOpens(added, outcome, file, check);
    EncodesShaped(d, es);
    IterateLists(d, es);
    if NoLonger(es, 0, |es|, 256) {
      ShortKeysList(d, es);
    }
    if Nested(es) {
      NestedList(d, es);
    }
  }

  lemma EncodesShaped(d: Dict, es: seq<Entry>)
    requires Encodes(d, es)
    ensures Shaped(d.sym) && Sorted(es)
  {
  }

  /** The key strictly extends the greatest key of the map. */
  ghost predicate PastGreatest(m: map<Key, Value>, key: Key) {
    exists k :: k in m && k < key && forall k' :: k' in m ==> !Less(k, k')
  }

  /** Lookup agrees with the map of the additions, keys past the greatest one set aside. */
  lemma BuiltLooksUp(added: seq<Entry>, outcome: seq<Entry>, file: seq<byte>, check: bool, key: Key) returns (d: Dict)
    requires Built(added, outcome, file)
    ensures Open(file, check) == Ok(d)
    ensures key in AsMap(added) ==> LookupKey(d, key) == Ok(AsMap(added)[key])
    ensures key !in AsMap(added) && !PastGreatest(AsMap(added), key) ==> LookupKey(d, key) == Err(NotFound)
  {
    hide Built, Encodes, LookupKey, Open, AsMap, PastGreatest, Less;
    var es;
    d, es := BuiltOpens(added, outcome, file, check);
    EncodesShaped(d, es);
    SortedMap(es, key);
    if key in AsMap(added) {
      var i :| 0 <= i < |es| && es[i].key == key;
      LookupPresent(d, es, i);
    } else if !PastGreatest(AsMap(added), key) {
      LastIsGreatestKey(es, key);
      LookupAbsent(d, es, key);
    }
  }

  lemma LastIsGreatestKey(es: seq<Entry>, key: Key)
    requires Sorted(es) && !PastGreatest(AsMap(es), key)
    ensures es == [] || !(es[|es| - 1].key < key)
  {
    hide AsMap, Less;
    if es != [] && es[|es| - 1].key < key {
      var last := es[|es| - 1].key;
      SortedMap(es, last);
      forall k' | k' in AsMap(es) ensures !Less(last, k') {
        SortedMap(es, k');
        var i :| 0 <= i < |es| && es[i].key == k';
        LessIrreflexive(last);
        LessAsymmetric(last, k');
      }
    }
  }

  /** Lookup rejects every key that was not added if and only if the bits behind the trie do not
      stray, which can be told from the file alone. */
  lemma BuiltRejects(added: seq<Entry>, outcome: seq<Entry>, file: seq<byte>, check: bool) returns (d: Dict)
    requires Built(added, outcome, file)
    ensures Open(file, check) == Ok(d) && Shaped(d.sym) && (d.numKeys == 0 <==> AsMap(added) == map[])
    ensures (forall key :: key !in AsMap(added) ==> LookupKey(d, key) == Err(NotFound))
       <==> (d.numKeys == 0 || !Strays(d.sym, d.s, d.valueStart))
  {
    hide Built, Encodes, LookupKey, Open, AsMap, Strays, Absent;
    var es;
    d, es := BuiltOpens(added, outcome, file, check);
    EncodesShaped(d, es);
    EncodesCount(d, es);
    forall key ensures key !in AsMap(es) <==> Absent(es, key) {
      SortedMap(es, key);
      AbsentMeans(es, key);
    }
    if es == [] {
      NothingStored(d, es);
    } else {
      SortedMap(es, es[0].key);
      AbsentRejected(d, es);
    }
  }

  lemma AbsentMeans(es: seq<Entry>, key: Key)
    ensures Absent(es, key) <==> forall i :: 0 <= i < |es| ==> es[i].key != key
  {
  }

  lemma EncodesCount(d: Dict, es: seq<Entry>)
    requires Encodes(d, es)
    ensures d.numKeys == |es|
  {
  }

  lemma NothingStored(d: Dict, es: seq<Entry>)
    requires Encodes(d, es) && es == []
    ensures Shaped(d.sym) && AsMap(es) == map[] && forall key :: LookupKey(d, key) == Err(NotFound)
  {
    hide Probe;
  }

  /** A prefix search lists exactly the keys of the map that start with the prefix, and then the
      end; if and only if the branches below the prefix nest at most 256 deep. */
  lemma BuiltSearches(added: seq<Entry>, outcome: seq<Entry>, file: seq<byte>, check: bool, prefix: Key)
    returns (d: Dict, es: seq<Entry>, k: nat, hi: nat)
    requires Built(added, outcome, file)
    ensures Open(file, check) == Ok(d) && Sorted(es) && AsMap(es) == AsMap(added)
    ensures k <= hi <= |es| && forall i :: 0 <= i < |es| ==> (prefix <= es[i].key <==> k <= i < hi)
    ensures FindPrefix(d, prefix).Ok?
    ensures Lists(d, FindPrefix(d, prefix).value, es, k, hi)
        <==> (es != [] && Located(es, d.hasValues, prefix).Some? ==>
                Depth(Located(es, d.hasValues, prefix).value.0) <= 256)
    ensures (es != [] ==> Depth(TrieOf(es, d.hasValues, 0, |es|, 0)) <= 256) ==> Lists(d, FindPrefix(d, prefix).value, es, k, hi)
  {
    hide Built, Encodes, Sorted, Depth, TrieOf, Lists, Open, FindPrefix, Located;
    d, es := BuiltOpens(added, outcome, file, check);
    EncodesShaped(d, es);
    k, hi := FindPrefixLists(d, es, prefix);
  }
}

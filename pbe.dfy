/** `pBE.py`: the pruned Basic Elements score of one target summary against the reference
    summaries of its topic. The scorer keeps three tables that each method resets and
    fills in place: the cluster mapping, the reference table (one count column per
    reference file) and the target table. Directories are maps from file name to lines. */
module PrunedBE {
  import opened Wrappers
  import opened Errors
  import opened Text
  import opened BasicElements
  import opened Counting
  import opened Topics
  import opened ClusterFile
  import opened Clustering

  /** A state of `pBE.py`: its inputs (the three directories, the allowed relations and
      the two switches) and the three tables its methods fill. */
  class BE {
    const refDir: Directory
    const trgDir: Directory
    const clsDir: Directory
    const refGroups: Groups
    const trgGroups: Groups
    const relSet: seq<string>
    /** `--ignore_freq`, the `-cnt` option */
    const ignoreFreq: bool
    /** `--assign_cluster`, the `+cls` option */
    const assignCluster: bool
    var refCount: map<string, seq<int>>
    var trgCount: map<string, int>
    var clsDict: map<string, string>

    /** `__init__`: group both listings by topic, start with empty tables and read the
        allowed relations. */
    constructor(refListing: seq<string>, trgListing: seq<string>, refDir: Directory, trgDir: Directory,
                clsDir: Directory, relLines: seq<string>, ignoreFreq: bool, assignCluster: bool)
      ensures IsGrouping(this.refGroups, Visible(refListing)) && IsGrouping(this.trgGroups, Visible(trgListing))
      ensures refCount == map[] && trgCount == map[] && clsDict == map[]
      ensures this.relSet == LoadRelations(relLines)
      ensures this.refDir == refDir && this.trgDir == trgDir && this.clsDir == clsDir
      ensures this.ignoreFreq == ignoreFreq && this.assignCluster == assignCluster
    {
      this.refDir := refDir;
      this.trgDir := trgDir;
      this.clsDir := clsDir;
      var refGroups := GroupByTopic(refListing);
      var trgGroups := GroupByTopic(trgListing);
      this.refGroups := refGroups;
      this.trgGroups := trgGroups;
      this.refCount := map[];
      this.trgCount := map[];
      this.clsDict := map[];
      this.relSet := LoadRelations(relLines);
      this.ignoreFreq := ignoreFreq;
      this.assignCluster := assignCluster;
    }

    /** `get_cls_dict`: the mapping is emptied, then, when clusters are assigned, filled from
        the target's cluster file, a later line of a word overriding an earlier one. */
    method GetClsDict(trgName: string) returns (err: Option<Error>)
      modifies this`clsDict
      ensures err == if assignCluster && trgName !in clsDir then Some(FileNotFound(trgName)) else None
      ensures clsDict == if assignCluster && trgName in clsDir then ReadClusterFile(clsDir[trgName]) else map[]
    {
      clsDict := map[];
      if assignCluster {
        if trgName !in clsDir {
          return Some(FileNotFound(trgName));
        }
        var lines := clsDir[trgName];
        for i := 0 to |lines|
          invariant clsDict == ReadClusterFile(lines[..i])
        {
          var line := lines[i];
          PrefixSnoc(lines, i);
          ReadClusterFileSnoc(lines[..i], line);
          var l := RStrip(line);
          var parts := Split(l, "\t");
          if |parts| == 2 {
            clsDict := clsDict[parts[0] := parts[1]];
          } else {
            clsDict := clsDict[l := l];
          }
        }
        assert lines[..|lines|] == lines;
      }
      err := None;
    }

    /** `get_ref_count`: the table is emptied, then every key of reference file number
        `counter` adds one to slot `counter` of its vector (a new key starting from zeros).
        The result is the reference table of the files' key columns, or the first error. */
    method GetRefCount(refNames: seq<string>) returns (err: Option<Error>)
      modifies this`refCount
      ensures match Columns(refNames, refDir, relSet, assignCluster, clsDict)
              case Err(e) => err == Some(e)
              case Ok(cols) => err == None && IsRefTable(refCount, cols, |refNames|)
    {
      refCount := map[];
      var cls := clsDict;
      var n := |refNames|;
      var counter := 0;
      ghost var cols: seq<seq<string>> := [];
      RefTableEmpty(n);
      while counter < n
        invariant counter <= n
        invariant Columns(refNames[..counter], refDir, relSet, assignCluster, cls) == Ok(cols)
        invariant IsRefTable(refCount, cols, n)
      {
        var refName := refNames[counter];
        PrefixSnoc(refNames, counter);
        if refName !in refDir {
          ColumnsRaise(refNames[..counter], refName, refDir, relSet, assignCluster, cls);
          ColumnsErrorPersists(refNames, counter + 1, refDir, relSet, assignCluster, cls);
          return Some(FileNotFound(refName));
        }
        RefTableOpen(refCount, cols, n);
        ghost var before := refCount;
        var e := CountReference(refDir[refName], counter, n, cls);
        if e.Some? {
          ColumnsRaise(refNames[..counter], refName, refDir, relSet, assignCluster, cls);
          ColumnsErrorPersists(refNames, counter + 1, refDir, relSet, assignCluster, cls);
          return e;
        }
        ghost var col := FileKeys(refDir[refName], relSet, assignCluster, cls).value;
        TallyIsRefTable(before, cols, col, n);
        ColumnsSnoc(refNames[..counter], refName, cols, col, refDir, relSet, assignCluster, cls);
        cols := cols + [col];
        counter := counter + 1;
      }
      assert refNames[..counter] == refNames;
      err := None;
    }

    /** The line loop of `get_ref_count` for reference file number `counter` (of `n`):
        its keys are counted into slot `counter`, or the first error of a line is raised. */
    method CountReference(lines: seq<string>, counter: nat, n: nat, cls: map<string, string>)
      returns (err: Option<Error>)
      requires counter < n && Slots(refCount, n)
      modifies this`refCount
      ensures match FileKeys(lines, relSet, assignCluster, cls)
              case Err(e) => err == Some(e)
              case Ok(col) => err == None && refCount == Tally(old(refCount), counter, n, col)
    {
      ghost var col: seq<string> := [];
      for j := 0 to |lines|
        invariant FileKeys(lines[..j], relSet, assignCluster, cls) == Ok(col)
        invariant refCount == Tally(old(refCount), counter, n, col)
      {
        PrefixSnoc(lines, j);
        match LineKey(lines[j], relSet, assignCluster, cls) {
          case Err(e) =>
            FileKeysRaise(lines[..j], lines[j], e, relSet, assignCluster, cls);
            FileKeysErrorPersists(lines, j + 1, relSet, assignCluster, cls);
            return Some(e);
          case Ok(None) =>
            FileKeysSkip(lines[..j], lines[j], col, relSet, assignCluster, cls);
          case Ok(Some(be)) =>
            FileKeysSnoc(lines[..j], lines[j], col, be, relSet, assignCluster, cls);
            TallySnoc(old(refCount), counter, n, col, be);
            refCount := Bump(refCount, counter, n, be);
            col := col + [be];
        }
      }
      assert lines[..|lines|] == lines;
      err := None;
    }

    /** `get_trg_count`: the table is emptied, then a key of the target is counted again
        when already counted, and counted once when it is a reference key. The result is
        the target table of the file's keys, or the first error. */
    method GetTrgCount(trgName: string) returns (err: Option<Error>)
      modifies this`trgCount
      ensures match ReadKeys(trgName, trgDir, relSet, assignCluster, clsDict)
              case Err(e) => err == Some(e)
              case Ok(keys) => err == None && IsTrgTable(trgCount, keys, refCount)
    {
      trgCount := map[];
      if trgName !in trgDir {
        return Some(FileNotFound(trgName));
      }
      var lines := trgDir[trgName];
      var cls, ref := clsDict, refCount;
      ghost var keys: seq<string> := [];
      TrgTableEmpty(ref);
      for j := 0 to |lines|
        invariant FileKeys(lines[..j], relSet, assignCluster, cls) == Ok(keys)
        invariant IsTrgTable(trgCount, keys, ref)
      {
        PrefixSnoc(lines, j);
        match LineKey(lines[j], relSet, assignCluster, cls) {
          case Err(e) =>
            FileKeysRaise(lines[..j], lines[j], e, relSet, assignCluster, cls);
            FileKeysErrorPersists(lines, j + 1, relSet, assignCluster, cls);
            return Some(e);
          case Ok(None) =>
            FileKeysSkip(lines[..j], lines[j], keys, relSet, assignCluster, cls);
          case Ok(Some(be)) =>
            FileKeysSnoc(lines[..j], lines[j], keys, be, relSet, assignCluster, cls);
            TrgTableStep(trgCount, keys, be, ref);
            if be in trgCount {
              trgCount := trgCount[be := trgCount[be] + 1];
            } else if be in ref {
              trgCount := trgCount[be := 1];
            }
            keys := keys + [be];
        }
      }
      assert lines[..|lines|] == lines;
      err := None;
    }

    /** `get_denominator`: the weights of all reference keys, in whatever order the table
        yields them. */
    method GetDenominator() returns (denominator: int)
      ensures denominator == Denominator(refCount, ignoreFreq)
    {
      ghost var terms := DenominatorTerms(refCount, ignoreFreq);
      denominator := 0;
      var rest := refCount.Keys;
      assert Restrict(terms, rest) == terms;
      while rest != {}
        invariant rest <= refCount.Keys
        invariant denominator + SumValues(Restrict(terms, rest)) == Denominator(refCount, ignoreFreq)
        decreases rest
      {
        var unit :| unit in rest;
        var freq := refCount[unit];
        SumRestrictStep(terms, rest, unit);
        if !ignoreFreq {
          denominator := denominator + VecSum(freq);
        } else {
          denominator := denominator + PresentCount(freq);
        }
        rest := rest - {unit};
      }
      assert Restrict(terms, rest) == map[];
    }

    /** `get_numerator`: for every target key that is also a reference key, the matches of
        its count against each reference column. */
    method GetNumerator() returns (numerator: int)
      ensures numerator == Numerator(trgCount, refCount, ignoreFreq)
    {
      ghost var terms := NumeratorTerms(trgCount, refCount, ignoreFreq);
      numerator := 0;
      var rest := trgCount.Keys;
      assert Restrict(terms, rest) == terms;
      while rest != {}
        invariant rest <= trgCount.Keys
        invariant numerator + SumValues(Restrict(terms, rest)) == Numerator(trgCount, refCount, ignoreFreq)
        decreases rest
      {
        var unit :| unit in rest;
        if unit in refCount {
          SumRestrictStep(terms, rest, unit);
          var trgFreq := trgCount[unit];
          if ignoreFreq {
            trgFreq := 1;
          }
          var freq := refCount[unit];
          ghost var before := numerator;
          for j := 0 to |freq|
            invariant numerator == before + MatchSum(trgFreq, freq[..j])
          {
            PrefixSnoc(freq, j);
            numerator := numerator + Min(trgFreq, freq[j]);
          }
          assert freq[..|freq|] == freq;
        } else {
          assert Restrict(terms, rest) == Restrict(terms, rest - {unit});
        }
        rest := rest - {unit};
      }
      assert Restrict(terms, rest) == map[];
    }

    /** `output_score`: the denominator, then the numerator, then their ratio, which fails
        on a zero denominator. The ratio is kept as the pair (numerator, denominator). */
    method OutputScore() returns (r: Result<(int, int), Error>)
      ensures r == if Denominator(refCount, ignoreFreq) == 0 then Err(ZeroDenominator)
                   else Ok((Numerator(trgCount, refCount, ignoreFreq), Denominator(refCount, ignoreFreq)))
    {
      var denominator := GetDenominator();
      var numerator := GetNumerator();
      if denominator == 0 {
        return Err(ZeroDenominator);
      }
      r := Ok((numerator, denominator));
    }

    /** The four calls the script makes for one target of a topic. The first failing step
        decides the error; a score is a ratio in [0, 1] with a positive denominator, and
        the denominator is zero exactly when no reference file has an allowed relation. */
    method ScoreTarget(refNames: seq<string>, trgName: string) returns (r: Result<(int, int), Error>)
      modifies this`clsDict, this`refCount, this`trgCount
      ensures clsDict == if assignCluster && trgName in clsDir then ReadClusterFile(clsDir[trgName]) else map[]
      ensures assignCluster && trgName !in clsDir ==> r == Err(FileNotFound(trgName))
      ensures !assignCluster || trgName in clsDir ==>
                match Columns(refNames, refDir, relSet, assignCluster, clsDict)
                case Err(e) => r == Err(e)
                case Ok(cols) =>
                  && IsRefTable(refCount, cols, |refNames|)
                  && match ReadKeys(trgName, trgDir, relSet, assignCluster, clsDict)
                     case Err(e) => r == Err(e)
                     case Ok(keys) =>
                       && IsTrgTable(trgCount, keys, refCount)
                       && r == if refCount == map[] then Err(ZeroDenominator)
                               else Ok((Numerator(trgCount, refCount, ignoreFreq), Denominator(refCount, ignoreFreq)))
      ensures r.Ok? ==> 0 <= r.value.0 <= r.value.1 && 0 < r.value.1
    {
      var e := GetClsDict(trgName);
      if e.Some? {
        return Err(e.value);
      }
      e := GetRefCount(refNames);
      if e.Some? {
        return Err(e.value);
      }
      ghost var cols := Columns(refNames, refDir, relSet, assignCluster, clsDict).value;
      e := GetTrgCount(trgName);
      if e.Some? {
        return Err(e.value);
      }
      ghost var keys := ReadKeys(trgName, trgDir, relSet, assignCluster, clsDict).value;
      r := OutputScore();
      DenominatorZeroIff(refCount, cols, |refNames|, ignoreFreq);
      TablesAreCounts(refCount, cols, |refNames|, trgCount, keys);
      NumeratorBounds(trgCount, refCount, ignoreFreq);
    }
  }

  /** Tables built by the two counting loops hold no negative count. */
  lemma TablesAreCounts(ref: map<string, seq<int>>, cols: seq<seq<string>>, n: nat,
                        trg: map<string, int>, keys: seq<string>)
    requires IsRefTable(ref, cols, n) && IsTrgTable(trg, keys, ref)
    ensures Counts(trg, ref)
  {
    forall k | k in ref ensures NonNegative(ref[k]) {
      RefTableEntries(ref, cols, n, k);
    }
  }

  /** A cluster file `clustering.py` writes, with one id per clustered row, for a set of
      words none of which holds a tab, and whose OOV words do not end in whitespace, maps
      every one of those words. */
  lemma ClusterFileTotal(lines: seq<string>, full: set<string>, embeddings: map<string, seq<real>>)
    requires IsClusterFile(lines, full, embeddings, true)
    requires forall w :: w in full ==> '\t' !in w
    requires forall w :: w in full && w !in embeddings ==> BareLine(w)
    ensures forall w :: w in full ==> w in ReadClusterFile(lines)
  {
    var items: seq<Assignment>, oov: seq<string> :| lines == FileLines(items, oov) && WrittenFrom(items, oov, full, embeddings, true);
    WrittenWordsMapped(items, oov, full, embeddings);
  }

  /** The words of the written lines: the clustered ones and the OOV ones, split by having an
      embedding, all read back. */
  lemma WrittenWordsMapped(items: seq<Assignment>, oov: seq<string>, full: set<string>, embeddings: map<string, seq<real>>)
    requires WrittenFrom(items, oov, full, embeddings, true)
    requires forall w :: w in full ==> '\t' !in w
    requires forall w :: w in full && w !in embeddings ==> BareLine(w)
    ensures forall w :: w in full ==> w in ReadClusterFile(FileLines(items, oov))
  {
    forall i | 0 <= i < |items| ensures items[i].token in full && items[i].token in embeddings {
      TokenSetIff(items, items[i].token);
    }
    RoundTrip(items, oov);
    forall w | w in full && w in embeddings ensures exists i :: 0 <= i < |items| && items[i].token == w {
      TokenSetIff(items, w);
    }
  }

  /** A file whose every token has a label reads without KeyError. */
  lemma FileCovered(lines: seq<string>, relSet: seq<string>, cls: map<string, string>)
    requires Extract(lines, relSet).Ok?
    requires forall w :: w in Tokens(Extract(lines, relSet).value) ==> w in cls
    ensures FileKeys(lines, relSet, true, cls) == Ok(KeysOf(Extract(lines, relSet).value, true, cls))
  {
    var ts := Extract(lines, relSet).value;
    forall i | 0 <= i < |ts| ensures ts[i].token1 in cls && ts[i].token2 in cls {
      assert Tokens(ts)[2 * i] == ts[i].token1 && Tokens(ts)[2 * i + 1] == ts[i].token2;
    }
    FileKeysOfExtract(lines, relSet, true, cls);
  }

  /** Reference files whose whole vocabulary has a label read without KeyError. */
  lemma {:induction false} ColumnsCovered(names: seq<string>, dir: Directory, relSet: seq<string>, cls: map<string, string>)
    requires Vocab(names, dir, relSet).Ok?
    requires forall w :: w in Vocab(names, dir, relSet).value ==> w in cls
    ensures Columns(names, dir, relSet, true, cls).Ok?
  {
    if names != [] {
      var init, name := names[..|names| - 1], names[|names| - 1];
      VocabSnoc(names, dir, relSet);
      ColumnsCovered(init, dir, relSet, cls);
      FileCovered(dir[name], relSet, cls);
      ColumnsSnoc(init, name, Columns(init, dir, relSet, true, cls).value,
                  FileKeys(dir[name], relSet, true, cls).value, dir, relSet, true, cls);
      assert names == init + [name];
    }
  }

  /** The two scripts agree: with the cluster file `clustering.py` writes for a target
      (from the same files and relations, every clustered row given an id, no word holding
      a tab, no OOV word ending in whitespace), neither counting loop of `pBE.py` raises KeyError. */
  lemma NoKeyError(refNames: seq<string>, trgName: string, refDir: Directory, trgDir: Directory,
                   relSet: seq<string>, clsLines: seq<string>, embeddings: map<string, seq<real>>)
    requires Vocab(refNames, refDir, relSet).Ok?
    requires trgName in trgDir && Extract(trgDir[trgName], relSet).Ok?
    requires var full := SetOf(Tokens(Extract(trgDir[trgName], relSet).value) + Vocab(refNames, refDir, relSet).value);
             && IsClusterFile(clsLines, full, embeddings, true)
             && (forall w :: w in full ==> '\t' !in w)
             && (forall w :: w in full && w !in embeddings ==> BareLine(w))
    ensures Columns(refNames, refDir, relSet, true, ReadClusterFile(clsLines)).Ok?
    ensures ReadKeys(trgName, trgDir, relSet, true, ReadClusterFile(clsLines)).Ok?
  {
    var trgTokens := Tokens(Extract(trgDir[trgName], relSet).value);
    var refVocab := Vocab(refNames, refDir, relSet).value;
    var full := SetOf(trgTokens + refVocab);
    var cls := ReadClusterFile(clsLines);
    ClusterFileTotal(clsLines, full, embeddings);
    assert forall w :: w in refVocab ==> w in trgTokens + refVocab;
    assert forall w :: w in trgTokens ==> w in trgTokens + refVocab;
    ColumnsCovered(refNames, refDir, relSet, cls);
    FileCovered(trgDir[trgName], relSet, cls);
  }
}

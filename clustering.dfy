/** `clustering.py`: for every target of a topic, the words of the references and of that
    target are split into those with an embedding and the rest, the former are clustered,
    and a cluster file is written for `pBE.py`. The embedding table is a map from word to
    vector; the clustering library is a function given to the model. */
module Clustering {
  import opened Wrappers
  import opened Errors
  import opened Text
  import opened BasicElements
  import opened Counting
  import opened Topics
  import opened ClusterFile

  /** The tokens of the Basic Elements of the named files, file after file, or the first
      error (a missing file or a bad line). */
  function Vocab(names: seq<string>, dir: Directory, relSet: seq<string>): Result<seq<string>, Error> {
    if names == [] then Ok([])
    else
      var init, name := names[..|names| - 1], names[|names| - 1];
      match Vocab(init, dir, relSet)
      case Err(e) => Err(e)
      case Ok(v) =>
        if name !in dir then Err(FileNotFound(name))
        else
          match Extract(dir[name], relSet)
          case Err(e) => Err(e)
          case Ok(ts) => Ok(v + Tokens(ts))
  }

  /** Every token of every Basic Element of the named files is in their vocabulary. */
  lemma {:induction false} VocabHasTokens(names: seq<string>, dir: Directory, relSet: seq<string>, i: nat, t: Triple)
    requires Vocab(names, dir, relSet).Ok? && i < |names|
    requires names[i] in dir && Extract(dir[names[i]], relSet).Ok?
    requires t in Extract(dir[names[i]], relSet).value
    ensures t.token1 in Vocab(names, dir, relSet).value && t.token2 in Vocab(names, dir, relSet).value
  {
    var init, name := names[..|names| - 1], names[|names| - 1];
    VocabSnoc(names, dir, relSet);
    if i == |names| - 1 {
      TokensHas(Extract(dir[name], relSet).value, t);
    } else {
      assert init[i] == names[i];
      VocabHasTokens(init, dir, relSet, i, t);
    }
  }

  /** The vocabulary of a non-empty list is that of all but its last file, then the tokens
      of the last file. */
  lemma VocabSnoc(names: seq<string>, dir: Directory, relSet: seq<string>)
    requires names != [] && Vocab(names, dir, relSet).Ok?
    ensures var init, name := names[..|names| - 1], names[|names| - 1];
            && Vocab(init, dir, relSet).Ok? && name in dir && Extract(dir[name], relSet).Ok?
            && Vocab(names, dir, relSet).value == Vocab(init, dir, relSet).value + Tokens(Extract(dir[name], relSet).value)
  {
  }

  /** Both tokens of a Basic Element are among the tokens of a sequence holding it. */
  lemma TokensHas(ts: seq<Triple>, t: Triple)
    requires t in ts
    ensures t.token1 in Tokens(ts) && t.token2 in Tokens(ts)
  {
    var k :| 0 <= k < |ts| && ts[k] == t;
    assert Tokens(ts)[2 * k] == t.token1 && Tokens(ts)[2 * k + 1] == t.token2;
  }

  /** `int(vocab_size * cluster_rate)`: the product truncated toward zero, as `int()` does
      with a float. */
  function ClusterCount(n: nat, rate: real): (k: int)
    ensures 0.0 <= rate <= 1.0 ==> 0 <= k <= n
  {
    Truncate(Times(n, rate))
  }

  /** `n * rate`, written as `n` additions so that its bounds follow by induction. */
  function Times(n: nat, rate: real): (x: real)
    ensures 0.0 <= rate <= 1.0 ==> 0.0 <= x <= n as real
  {
    if n == 0 then 0.0 else Times(n - 1, rate) + rate
  }

  /** `Times` is the product. */
  lemma {:induction false} TimesIsProduct(n: nat, rate: real)
    ensures Times(n, rate) == n as real * rate
  {
    if n > 0 {
      TimesIsProduct(n - 1, rate);
    }
  }

  /** `int(x)` for a float `x`: rounds toward zero. */
  function Truncate(x: real): (k: int)
    ensures x >= 0.0 ==> 0 <= k && k as real <= x < k as real + 1.0
    ensures x < 0.0 ==> k <= 0 && k as real - 1.0 < x <= k as real
  {
    if x >= 0.0 then x.Floor else -((-x).Floor)
  }

  /** `set(words)`: the distinct words of a list. */
  function SetOf(words: seq<string>): set<string> {
    set w | w in words
  }

  /** `emb_matrix`: the vector of each word of `valid`, in order. */
  function Rows(valid: seq<string>, embeddings: map<string, seq<real>>): (matrix: seq<seq<real>>)
    requires forall i :: 0 <= i < |valid| ==> valid[i] in embeddings
    ensures |matrix| == |valid|
  {
    seq(|valid|, i requires 0 <= i < |valid| => embeddings[valid[i]])
  }

  /** `zip(valid_vocab, cluster_ids)`: each word with the id at its index, as far as the
      shorter list goes. */
  function Zip(valid: seq<string>, ids: seq<int>): (items: seq<Assignment>)
    ensures |items| == if |valid| <= |ids| then |valid| else |ids|
  {
    seq(if |valid| <= |ids| then |valid| else |ids|, i requires 0 <= i < |valid| && i < |ids| => Assignment(valid[i], ids[i]))
  }

  /** The words of `full` with an embedding are exactly those of `valid`, the others exactly
      those of `oov`; each list holds each of its words once. */
  ghost predicate IsPartition(full: set<string>, embeddings: map<string, seq<real>>, valid: seq<string>, oov: seq<string>) {
    && (forall w :: w in valid <==> w in full && w in embeddings)
    && (forall w :: w in oov <==> w in full && w !in embeddings)
    && (forall i, j :: 0 <= i < j < |valid| ==> valid[i] != valid[j])
    && (forall i, j :: 0 <= i < j < |oov| ==> oov[i] != oov[j])
  }

  /** `lines` is a cluster file for the words of `full`: clustered words with an embedding
      in order of cluster id, each once, then every word without an embedding, each once.
      When `complete` holds, every word with an embedding is clustered. */
  ghost predicate IsClusterFile(lines: seq<string>, full: set<string>, embeddings: map<string, seq<real>>, complete: bool) {
    exists items: seq<Assignment>, oov: seq<string> :: lines == FileLines(items, oov) && WrittenFrom(items, oov, full, embeddings, complete)
  }

  /** The clustered words `items` and the OOV words `oov` of a cluster file for `full`. */
  ghost predicate WrittenFrom(items: seq<Assignment>, oov: seq<string>, full: set<string>, embeddings: map<string, seq<real>>, complete: bool) {
    && SortedById(items)
    && DistinctTokens(items)
    && (forall i, j :: 0 <= i < j < |oov| ==> oov[i] != oov[j])
    && (forall w :: w in TokenSet(items) ==> w in full && w in embeddings)
    && (forall w :: w in oov <==> w in full && w !in embeddings)
    && (complete ==> forall w :: w in full && w in embeddings ==> w in TokenSet(items))
  }

  /** A state of `clustering.py`: its inputs (the two directories, the allowed relations,
      the clustering parameters, the embeddings and the clustering routine) and the
      cluster directory it writes into. */
  class ClusterModel {
    const refDir: Directory
    const trgDir: Directory
    const refGroups: Groups
    const trgGroups: Groups
    const relSet: seq<string>
    const clusterRate: real
    const affinity: string
    const linkage: string
    const embeddings: map<string, seq<real>>
    /** `AgglomerativeClustering(n_clusters, affinity, linkage).fit_predict(matrix)`:
        one cluster id per row, or `None` where the library raises. */
    const fitPredict: (seq<seq<real>>, int, string, string) -> Option<seq<int>>
    var clsDir: Directory

    /** The library keeps its promise of one id per row. */
    ghost predicate OneIdPerRow() {
      forall m: seq<seq<real>>, k: int, a: string, l: string ::
        fitPredict(m, k, a, l).Some? ==> |fitPredict(m, k, a, l).value| == |m|
    }

    /** `__init__`: group both listings by topic and read the allowed relations. */
    constructor(refListing: seq<string>, trgListing: seq<string>, refDir: Directory, trgDir: Directory,
                clsDir: Directory, relLines: seq<string>, clusterRate: real, affinity: string,
                linkage: string, embeddings: map<string, seq<real>>,
                fitPredict: (seq<seq<real>>, int, string, string) -> Option<seq<int>>)
      ensures IsGrouping(this.refGroups, Visible(refListing)) && IsGrouping(this.trgGroups, Visible(trgListing))
      ensures this.relSet == LoadRelations(relLines)
      ensures this.refDir == refDir && this.trgDir == trgDir && this.clsDir == clsDir
      ensures this.clusterRate == clusterRate && this.affinity == affinity && this.linkage == linkage
      ensures this.embeddings == embeddings && this.fitPredict == fitPredict
    {
      this.refDir := refDir;
      this.trgDir := trgDir;
      this.clsDir := clsDir;
      var refGroups := GroupByTopic(refListing);
      var trgGroups := GroupByTopic(trgListing);
      this.refGroups := refGroups;
      this.trgGroups := trgGroups;
      this.relSet := LoadRelations(relLines);
      this.clusterRate := clusterRate;
      this.affinity := affinity;
      this.linkage := linkage;
      this.embeddings := embeddings;
      this.fitPredict := fitPredict;
    }

    /** The line loop of one file: both tokens of each Basic Element are appended to
        `vocab`, or the first error of a line is raised. */
    method AppendTokens(vocab: seq<string>, lines: seq<string>) returns (r: Result<seq<string>, Error>)
      ensures r == match Extract(lines, relSet)
                   case Err(e) => Err(e)
                   case Ok(ts) => Ok(vocab + Tokens(ts))
    {
      var acc := vocab;
      for i := 0 to |lines|
        invariant Extract(lines[..i], relSet).Ok?
        invariant acc == vocab + Tokens(Extract(lines[..i], relSet).value)
      {
        assert lines[..i + 1][..i] == lines[..i];
        var ts := Extract(lines[..i], relSet).value;
        match ParseLine(lines[i], relSet) {
          case Err(e) =>
            ExtractFirstError(lines[..i + 1], relSet);
            ExtractErrorPersists(lines, relSet, i + 1);
            return Err(e);
          case Ok(None) =>
          case Ok(Some(t)) =>
            AppendStep(vocab, ts, t);
            acc := acc + [t.token1, t.token2];
        }
      }
      assert lines[..|lines|] == lines;
      r := Ok(acc);
    }

    /** The reference loop: the vocabulary of all reference files of the topic. */
    method RefVocab(refInTopic: seq<string>) returns (r: Result<seq<string>, Error>)
      ensures r == Vocab(refInTopic, refDir, relSet)
    {
      var vocab: seq<string> := [];
      for i := 0 to |refInTopic|
        invariant Vocab(refInTopic[..i], refDir, relSet) == Ok(vocab)
      {
        var name := refInTopic[i];
        assert refInTopic[..i + 1][..i] == refInTopic[..i];
        if name !in refDir {
          VocabStops(refInTopic, refDir, relSet, i);
          return Err(FileNotFound(name));
        }
        var next := AppendTokens(vocab, refDir[name]);
        if next.Err? {
          VocabStops(refInTopic, refDir, relSet, i);
          return next;
        }
        vocab := next.value;
      }
      assert refInTopic[..|refInTopic|] == refInTopic;
      r := Ok(vocab);
    }

    /** The loop over `full_vocab`: visited in no particular order (that of a Python set),
        each word goes to `valid_vocab` with its vector, or to `OOV`. */
    method Partition(full: set<string>) returns (valid: seq<string>, matrix: seq<seq<real>>, oov: seq<string>)
      ensures IsPartition(full, embeddings, valid, oov)
      ensures |matrix| == |valid|
      ensures forall i :: 0 <= i < |valid| ==> valid[i] in embeddings && matrix[i] == embeddings[valid[i]]
    {
      valid, matrix, oov := [], [], [];
      var rest := full;
      while rest != {}
        invariant rest <= full
        invariant forall w :: w in valid <==> w in full - rest && w in embeddings
        invariant forall w :: w in oov <==> w in full - rest && w !in embeddings
        invariant forall i, j :: 0 <= i < j < |valid| ==> valid[i] != valid[j]
        invariant forall i, j :: 0 <= i < j < |oov| ==> oov[i] != oov[j]
        invariant |matrix| == |valid|
        invariant forall i :: 0 <= i < |valid| ==> valid[i] in embeddings && matrix[i] == embeddings[valid[i]]
        decreases rest
      {
        var w :| w in rest;
        if w in embeddings {
          valid := valid + [w];
          matrix := matrix + [embeddings[w]];
        } else {
          oov := oov + [w];
        }
        rest := rest - {w};
      }
    }

    /** `for vocab, ID in zip(valid_vocab, cluster_ids): out_dict[vocab] = ID`: each
        clustered word with its id, in order, as far as the shorter list goes. */
    method Pairs(valid: seq<string>, ids: seq<int>) returns (items: seq<Assignment>)
      ensures |items| == if |valid| <= |ids| then |valid| else |ids|
      ensures forall i :: 0 <= i < |items| ==> items[i] == Assignment(valid[i], ids[i])
    {
      items := [];
      var n := if |valid| <= |ids| then |valid| else |ids|;
      for i := 0 to n
        invariant |items| == i
        invariant forall j :: 0 <= j < i ==> items[j] == Assignment(valid[j], ids[j])
      {
        items := items + [Assignment(valid[i], ids[i])];
      }
    }

    /** The writing loops: the assignments sorted by id, one line each, then one line per
        OOV word. */
    method WriteLines(sorted: seq<Assignment>, oov: seq<string>) returns (lines: seq<string>)
      ensures lines == FileLines(sorted, oov)
    {
      lines := [];
      for i := 0 to |sorted|
        invariant lines == ClusterLines(sorted[..i])
      {
        ClusterLinesSnoc(sorted[..i], sorted[i]);
        assert sorted[..i + 1] == sorted[..i] + [sorted[i]];
        lines := lines + [ClusterLine(sorted[i])];
      }
      assert sorted[..|sorted|] == sorted;
      for i := 0 to |oov|
        invariant lines == ClusterLines(sorted) + oov[..i]
      {
        assert oov[..i + 1] == oov[..i] + [oov[i]];
        lines := lines + [oov[i]];
      }
      assert oov[..|oov|] == oov;
    }

    /** The body of the target loop for one target file: its cluster file, or the error
        that stops the script (a missing file, a bad line, or the library refusing). */
    method ClusterTarget(refVocab: seq<string>, name: string) returns (r: Result<seq<string>, Error>)
      ensures Outcome(name, refVocab, r)
      ensures r.Ok? ==> Written(r.value, name, refVocab)
    {
      if name !in trgDir {
        return Err(FileNotFound(name));
      }
      var trgVocab := AppendTokens([], trgDir[name]);
      if trgVocab.Err? {
        return Err(trgVocab.error);
      }
      assert trgVocab.value == Tokens(Extract(trgDir[name], relSet).value) by {
        assert [] + Tokens(Extract(trgDir[name], relSet).value) == Tokens(Extract(trgDir[name], relSet).value);
      }
      var all := trgVocab.value + refVocab;
      var full := SetOf(all);
      var valid, matrix, oov := Partition(full);
      var count := ClusterCount(|valid|, clusterRate);
      assert matrix == Rows(valid, embeddings);
      var ids := fitPredict(matrix, count, affinity, linkage);
      if ids.None? {
        assert ProducedFrom(full, valid, oov, Err(ClusteringRejected));
        return Err(ClusteringRejected);
      }
      var items := Pairs(valid, ids.value);
      assert items == Zip(valid, ids.value);
      var lines := WriteLines(SortById(items), oov);
      ClusterFileWritten(full, valid, matrix, oov, count, ids.value, items);
      assert ProducedFrom(full, valid, oov, Ok(lines));
      r := Ok(lines);
    }

    /** What `ClusterTarget` writes is a cluster file for its words. */
    lemma ClusterFileWritten(full: set<string>, valid: seq<string>, matrix: seq<seq<real>>, oov: seq<string>,
                             count: int, ids: seq<int>, items: seq<Assignment>)
      requires IsPartition(full, embeddings, valid, oov) && |matrix| == |valid|
      requires Some(ids) == fitPredict(matrix, count, affinity, linkage)
      requires |items| == (if |valid| <= |ids| then |valid| else |ids|)
      requires forall i :: 0 <= i < |items| ==> items[i] == Assignment(valid[i], ids[i])
      ensures IsClusterFile(FileLines(SortById(items), oov), full, embeddings, OneIdPerRow())
    {
      var sorted := SortById(items);
      ZippedTokens(valid, ids, items);
      SortTokens(items);
      if OneIdPerRow() {
        assert |items| == |valid|;
      }
      ClusterFileIntro(sorted, oov, full, embeddings, OneIdPerRow());
    }

    /** `assign_cluster`: the reference vocabulary, then a cluster file for every target of
        the topic that is not also a reference, in order, until a target stops the script.
        `stop` counts the targets dealt with; only their files change. */
    method AssignCluster(refInTopic: seq<string>, trgInTopic: seq<string>) returns (err: Option<Error>, ghost stop: nat)
      modifies this`clsDir
      ensures Vocab(refInTopic, refDir, relSet).Err? ==>
                err == Some(Vocab(refInTopic, refDir, relSet).error) && clsDir == old(clsDir) && stop == 0
      ensures Vocab(refInTopic, refDir, relSet).Ok? ==>
                && stop <= |trgInTopic|
                && Done(clsDir, trgInTopic[..stop], refInTopic, Vocab(refInTopic, refDir, relSet).value)
                && (err.None? <==> stop == |trgInTopic|)
                && (err.Some? ==> trgInTopic[stop] !in refInTopic &&
                                  Outcome(trgInTopic[stop], Vocab(refInTopic, refDir, relSet).value, Err(err.value)))
      ensures forall n :: n in clsDir && (n !in old(clsDir) || clsDir[n] != old(clsDir)[n]) ==>
                n in trgInTopic[..stop] && n !in refInTopic
      ensures forall n :: n in old(clsDir) ==> n in clsDir
      ensures LibraryTotal() && Vocab(refInTopic, refDir, relSet).Ok? &&
              (forall i :: 0 <= i < |trgInTopic| && trgInTopic[i] !in refInTopic ==> Readable(trgInTopic[i])) ==>
                err.None?
    {
      var refVocab := RefVocab(refInTopic);
      if refVocab.Err? {
        return Some(refVocab.error), 0;
      }
      err, stop := ClusterTargets(refInTopic, refVocab.value, trgInTopic);
    }

    /** The target loop of `assign_cluster`. */
    method ClusterTargets(refInTopic: seq<string>, refVocab: seq<string>, trgInTopic: seq<string>)
      returns (err: Option<Error>, ghost stop: nat)
      modifies this`clsDir
      ensures stop <= |trgInTopic| && Done(clsDir, trgInTopic[..stop], refInTopic, refVocab)
      ensures err.None? <==> stop == |trgInTopic|
      ensures err.Some? ==> trgInTopic[stop] !in refInTopic && Outcome(trgInTopic[stop], refVocab, Err(err.value))
      ensures forall n :: n in clsDir && (n !in old(clsDir) || clsDir[n] != old(clsDir)[n]) ==>
                n in trgInTopic[..stop] && n !in refInTopic
      ensures forall n :: n in old(clsDir) ==> n in clsDir
      ensures LibraryTotal() && (forall i :: 0 <= i < |trgInTopic| && trgInTopic[i] !in refInTopic ==> Readable(trgInTopic[i])) ==>
                err.None?
    {
      for i := 0 to |trgInTopic|
        invariant Done(clsDir, trgInTopic[..i], refInTopic, refVocab)
        invariant forall n :: n in clsDir && (n !in old(clsDir) || clsDir[n] != old(clsDir)[n]) ==>
                    n in trgInTopic[..i] && n !in refInTopic
        invariant forall n :: n in old(clsDir) ==> n in clsDir
      {
        var name := trgInTopic[i];
        assert trgInTopic[..i + 1] == trgInTopic[..i] + [name];
        if name !in refInTopic {
          var r := ClusterTarget(refVocab, name);
          if r.Err? {
            OutcomeError(name, refVocab, r.error);
            return Some(r.error), i;
          }
          DoneUpdate(clsDir, trgInTopic[..i], refInTopic, refVocab, name, r.value);
          clsDir := clsDir[name := r.value];
        }
        DoneSnoc(clsDir, trgInTopic[..i], refInTopic, refVocab, name);
      }
      assert trgInTopic[..|trgInTopic|] == trgInTopic;
      err, stop := None, |trgInTopic|;
    }

    /** `lines` is the cluster file of target `name` given the reference vocabulary. */
    ghost predicate Written(lines: seq<string>, name: string, refVocab: seq<string>) {
      && Outcome(name, refVocab, Ok(lines))
      && Readable(name)
      && IsClusterFile(lines, SetOf(Tokens(Extract(trgDir[name], relSet).value) + refVocab), embeddings, OneIdPerRow())
    }

    /** The target file exists and every line of it parses. */
    ghost predicate Readable(name: string) {
      name in trgDir && Extract(trgDir[name], relSet).Ok?
    }

    /** The library accepts every matrix it is given with these parameters. */
    ghost predicate LibraryTotal() {
      forall m: seq<seq<real>>, k: int :: fitPredict(m, k, affinity, linkage).Some?
    }

    /** `r` is what one pass of the target loop gives when visiting `full_vocab` splits it
        into `valid` and `oov`: the library's refusal, or the lines written from the ids it
        returns for the matrix of `valid` and `int(len(valid_vocab) * cluster_rate)` clusters. */
    ghost predicate ProducedFrom(full: set<string>, valid: seq<string>, oov: seq<string>, r: Result<seq<string>, Error>) {
      && IsPartition(full, embeddings, valid, oov)
      && var ids := fitPredict(Rows(valid, embeddings), ClusterCount(|valid|, clusterRate), affinity, linkage);
         r == if ids.None? then Err(ClusteringRejected) else Ok(FileLines(SortById(Zip(valid, ids.value)), oov))
    }

    /** What the target loop gives for target `name`: a missing file, the error of its first
        bad line, or what the library makes of its words and the reference vocabulary, for
        some order of visiting the set of those words. */
    ghost predicate Outcome(name: string, refVocab: seq<string>, r: Result<seq<string>, Error>) {
      if name !in trgDir then r == Err(FileNotFound(name))
      else if Extract(trgDir[name], relSet).Err? then r == Err(Extract(trgDir[name], relSet).error)
      else
        var full := SetOf(Tokens(Extract(trgDir[name], relSet).value) + refVocab);
        exists valid: seq<string>, oov: seq<string> :: ProducedFrom(full, valid, oov, r)
    }

    /** A readable target stops the loop only when the library refuses its matrix, which a
        library accepting every matrix never does. */
    lemma OutcomeError(name: string, refVocab: seq<string>, e: Error)
      requires Outcome(name, refVocab, Err(e))
      ensures Readable(name) ==> e == ClusteringRejected && !LibraryTotal()
    {
      if Readable(name) {
        var full := SetOf(Tokens(Extract(trgDir[name], relSet).value) + refVocab);
        var valid: seq<string>, oov: seq<string> :| ProducedFrom(full, valid, oov, Err(e));
      }
    }

    /** Every target of `names` that is not a reference has its cluster file in `dir`. */
    ghost predicate Done(dir: Directory, names: seq<string>, refInTopic: seq<string>, refVocab: seq<string>)
      decreases |names|
    {
      names == [] ||
      var init, name := names[..|names| - 1], names[|names| - 1];
      && Done(dir, init, refInTopic, refVocab)
      && (name !in refInTopic ==> name in dir && Written(dir[name], name, refVocab))
    }

    lemma DoneSnoc(dir: Directory, names: seq<string>, refInTopic: seq<string>, refVocab: seq<string>, name: string)
      requires Done(dir, names, refInTopic, refVocab)
      requires name !in refInTopic ==> name in dir && Written(dir[name], name, refVocab)
      ensures Done(dir, names + [name], refInTopic, refVocab)
    {
      assert (names + [name])[..|names|] == names;
    }

    /** Writing a cluster file for one more target keeps every earlier one a cluster file. */
    lemma {:induction false} DoneUpdate(dir: Directory, names: seq<string>, refInTopic: seq<string>, refVocab: seq<string>,
                                        name: string, lines: seq<string>)
      requires Done(dir, names, refInTopic, refVocab) && Written(lines, name, refVocab)
      ensures Done(dir[name := lines], names, refInTopic, refVocab)
      decreases |names|
    {
      if names != [] {
        DoneUpdate(dir, names[..|names| - 1], refInTopic, refVocab, name, lines);
      }
    }

    /** A target listed among `names` and not a reference has its cluster file. */
    lemma {:induction false} DoneHas(dir: Directory, names: seq<string>, refInTopic: seq<string>, refVocab: seq<string>, k: nat)
      requires Done(dir, names, refInTopic, refVocab) && k < |names| && names[k] !in refInTopic
      ensures names[k] in dir && Written(dir[names[k]], names[k], refVocab)
      decreases |names|
    {
      if k < |names| - 1 {
        assert names[..|names| - 1][k] == names[k];
        DoneHas(dir, names[..|names| - 1], refInTopic, refVocab, k);
      }
    }
  }

  /** The items zipped from distinct words carry distinct words, all taken from the list;
      when no id is missing, every word of the list is among them. */
  lemma ZippedTokens(valid: seq<string>, ids: seq<int>, items: seq<Assignment>)
    requires forall i, j :: 0 <= i < j < |valid| ==> valid[i] != valid[j]
    requires |items| <= |valid| && |items| <= |ids|
    requires forall i :: 0 <= i < |items| ==> items[i] == Assignment(valid[i], ids[i])
    ensures DistinctTokens(items)
    ensures forall w :: w in TokenSet(items) ==> w in valid
    ensures |items| == |valid| ==> forall w :: w in valid ==> w in TokenSet(items)
  {
    forall i, j | 0 <= i < j < |items| ensures items[i].token != items[j].token {
      assert items[i].token == valid[i] && items[j].token == valid[j];
    }
    forall w | w in TokenSet(items) ensures w in valid {
      TokenSetIff(items, w);
      var i :| 0 <= i < |items| && items[i].token == w;
      assert valid[i] == w;
    }
    if |items| == |valid| {
      forall w | w in valid ensures w in TokenSet(items) {
        var k :| 0 <= k < |valid| && valid[k] == w;
        assert items[k].token == w;
        TokenSetIff(items, w);
      }
    }
  }

  /** The written lines of sorted, distinct, embedded assignments and of the OOV words form
      a cluster file. */
  lemma ClusterFileIntro(sorted: seq<Assignment>, oov: seq<string>, full: set<string>,
                         embeddings: map<string, seq<real>>, complete: bool)
    requires SortedById(sorted) && DistinctTokens(sorted)
    requires forall i, j :: 0 <= i < j < |oov| ==> oov[i] != oov[j]
    requires forall w :: w in TokenSet(sorted) ==> w in full && w in embeddings
    requires forall w :: w in oov <==> w in full && w !in embeddings
    requires complete ==> forall w :: w in full && w in embeddings ==> w in TokenSet(sorted)
    ensures IsClusterFile(FileLines(sorted, oov), full, embeddings, complete)
  {
    assert WrittenFrom(sorted, oov, full, embeddings, complete);
  }

  lemma TokensSnoc(ts: seq<Triple>, t: Triple)
    ensures Tokens(ts + [t]) == Tokens(ts) + [t.token1, t.token2]
  {
    assert (ts + [t])[..|ts|] == ts;
  }

  lemma AppendStep(vocab: seq<string>, ts: seq<Triple>, t: Triple)
    ensures vocab + Tokens(ts + [t]) == vocab + Tokens(ts) + [t.token1, t.token2]
  {
    TokensSnoc(ts, t);
  }

  /** An error in a prefix of a file is the error of the whole file: reading stops at the
      first bad line. */
  lemma {:induction false} ExtractErrorPersists(lines: seq<string>, relSet: seq<string>, k: nat)
    requires k <= |lines| && Extract(lines[..k], relSet).Err?
    ensures Extract(lines, relSet) == Extract(lines[..k], relSet)
  {
    if k < |lines| {
      var init := lines[..|lines| - 1];
      assert init[..k] == lines[..k];
      ExtractErrorPersists(init, relSet, k);
      ExtractKeepsError(lines, relSet);
    } else {
      assert lines[..k] == lines;
    }
  }

  /** An error in a prefix is the error of the whole file. */
  lemma ExtractKeepsError(lines: seq<string>, relSet: seq<string>)
    requires lines != [] && Extract(lines[..|lines| - 1], relSet).Err?
    ensures Extract(lines, relSet) == Extract(lines[..|lines| - 1], relSet)
  {
  }

  /** A last line that fails after a clean prefix gives its own error. */
  lemma ExtractFirstError(lines: seq<string>, relSet: seq<string>)
    requires lines != [] && Extract(lines[..|lines| - 1], relSet).Ok?
    requires ParseLine(lines[|lines| - 1], relSet).Err?
    ensures Extract(lines, relSet) == Err(ParseLine(lines[|lines| - 1], relSet).error)
  {
  }

  /** The vocabulary of a list whose `i`-th file is missing or bad, with all earlier files
      fine, is that file's error. */
  lemma {:induction false} VocabStops(names: seq<string>, dir: Directory, relSet: seq<string>, i: nat)
    requires i < |names| && Vocab(names[..i], dir, relSet).Ok?
    requires names[i] !in dir || Extract(dir[names[i]], relSet).Err?
    ensures Vocab(names, dir, relSet) ==
              if names[i] !in dir then Err(FileNotFound(names[i])) else Err(Extract(dir[names[i]], relSet).error)
  {
    var init := names[..|names| - 1];
    if i < |init| {
      assert init[..i] == names[..i] && init[i] == names[i];
      VocabStops(init, dir, relSet, i);
    } else {
      assert init == names[..i];
    }
  }
}

/** What `pBE.py` counts and how it scores: the key of each Basic Element, the reference
    table (one count column per reference file), the target table, and the numerator and
    denominator of the score. The methods of `PrunedBE.BE` are proved against these. */
module Counting {
  import opened Wrappers
  import opened Errors
  import opened Text
  import opened BasicElements

  /** The contents of a directory: file name to the lines of that file. */
  type Directory = map<string, seq<string>>

  /** One token as it enters a key: itself, or its cluster label when clusters are
      assigned; a token the cluster file does not list raises KeyError. */
  function Label(token: string, assign: bool, cls: map<string, string>): (r: Result<string, Error>)
    ensures r.Ok? <==> !assign || token in cls
    ensures r.Ok? ==> r.value == if assign then cls[token] else token
    ensures r.Err? ==> r.error == MissingCluster(token)
  {
    if !assign then Ok(token)
    else if token in cls then Ok(cls[token])
    else Err(MissingCluster(token))
  }

  /** `'{} {} {}'.format(rel, token1, token2)`: the identity of a Basic Element. */
  function BEKey(rel: string, a: string, b: string): string {
    rel + " " + a + " " + b
  }

  /** The key one line contributes, if any: parse, then translate both tokens (the first
      before the second), then format. */
  function LineKey(line: string, relSet: seq<string>, assign: bool, cls: map<string, string>)
    : Result<Option<string>, Error>
  {
    match ParseLine(line, relSet)
    case Err(e) => Err(e)
    case Ok(None) => Ok(None)
    case Ok(Some(t)) =>
      match Label(t.token1, assign, cls)
      case Err(e) => Err(e)
      case Ok(a) =>
        match Label(t.token2, assign, cls)
        case Err(e) => Err(e)
        case Ok(b) => Ok(Some(BEKey(t.rel, a, b)))
  }

  /** The keys of a file in line order, or the first error a line raises. */
  function FileKeys(lines: seq<string>, relSet: seq<string>, assign: bool, cls: map<string, string>)
    : Result<seq<string>, Error>
  {
    if lines == [] then Ok([])
    else
      match FileKeys(lines[..|lines| - 1], relSet, assign, cls)
      case Err(e) => Err(e)
      case Ok(ks) =>
        match LineKey(lines[|lines| - 1], relSet, assign, cls)
        case Err(e) => Err(e)
        case Ok(None) => Ok(ks)
        case Ok(Some(k)) => Ok(ks + [k])
  }

  /** The key of an extracted Basic Element whose tokens all have a label. */
  function Normalize(t: Triple, assign: bool, cls: map<string, string>): string
    requires assign ==> t.token1 in cls && t.token2 in cls
  {
    if assign then BEKey(t.rel, cls[t.token1], cls[t.token2]) else BEKey(t.rel, t.token1, t.token2)
  }

  /** Every token of `ts` has a label in `cls`. */
  ghost predicate Covers(cls: map<string, string>, ts: seq<Triple>) {
    forall i :: 0 <= i < |ts| ==> ts[i].token1 in cls && ts[i].token2 in cls
  }

  function KeysOf(ts: seq<Triple>, assign: bool, cls: map<string, string>): (ks: seq<string>)
    requires assign ==> Covers(cls, ts)
    ensures |ks| == |ts|
    ensures forall i :: 0 <= i < |ts| ==> ks[i] == Normalize(ts[i], assign, cls)
  {
    if ts == [] then [] else KeysOf(ts[..|ts| - 1], assign, cls) + [Normalize(ts[|ts| - 1], assign, cls)]
  }

  /** A file whose lines all parse yields one key per Basic Element, and no KeyError, as
      soon as the cluster mapping covers its tokens (or clusters are off). */
  lemma {:induction false} FileKeysOfExtract(lines: seq<string>, relSet: seq<string>, assign: bool, cls: map<string, string>)
    requires Extract(lines, relSet).Ok?
    requires assign ==> Covers(cls, Extract(lines, relSet).value)
    ensures FileKeys(lines, relSet, assign, cls) == Ok(KeysOf(Extract(lines, relSet).value, assign, cls))
  {
    if lines != [] {
      var init := lines[..|lines| - 1];
      var ts := Extract(init, relSet).value;
      var all := Extract(lines, relSet).value;
      assert ts <= all;
      FileKeysOfExtract(init, relSet, assign, cls);
      if assign {
        assert KeysOf(all, assign, cls)[..|ts|] == KeysOf(ts, assign, cls);
      }
    }
  }

  /** A parse error is never hidden: keys exist only for files whose every line parses. */
  lemma {:induction false} FileKeysNeedParse(lines: seq<string>, relSet: seq<string>, assign: bool, cls: map<string, string>)
    requires FileKeys(lines, relSet, assign, cls).Ok?
    ensures Extract(lines, relSet).Ok?
  {
    if lines != [] {
      FileKeysNeedParse(lines[..|lines| - 1], relSet, assign, cls);
    }
  }

  /** `open(os.path.join(dir, name))` and the keys of its lines, or the error. */
  function ReadKeys(name: string, dir: Directory, relSet: seq<string>, assign: bool, cls: map<string, string>)
    : Result<seq<string>, Error>
  {
    if name !in dir then Err(FileNotFound(name)) else FileKeys(dir[name], relSet, assign, cls)
  }

  /** The key columns of the reference files of a topic, in the order given, or the first
      error (a missing file or a bad line). */
  function Columns(names: seq<string>, dir: Directory, relSet: seq<string>, assign: bool, cls: map<string, string>)
    : (r: Result<seq<seq<string>>, Error>)
    ensures r.Ok? ==> |r.value| == |names|
  {
    if names == [] then Ok([])
    else
      match Columns(names[..|names| - 1], dir, relSet, assign, cls)
      case Err(e) => Err(e)
      case Ok(cols) =>
        match ReadKeys(names[|names| - 1], dir, relSet, assign, cls)
        case Err(e) => Err(e)
        case Ok(ks) => Ok(cols + [ks])
  }

  /** Occurrences of `k` in column `c`; columns not read yet count as empty. */
  function ColumnCount(cols: seq<seq<string>>, c: int, k: string): nat {
    if 0 <= c < |cols| then multiset(cols[c])[k] else 0
  }

  /** Some column holds `k`. */
  ghost predicate Occurs(cols: seq<seq<string>>, k: string) {
    exists c :: 0 <= c < |cols| && k in cols[c]
  }

  /** `t` is the reference table of `cols` with `n` slots: a key is present exactly when
      some column holds it, and slot `c` of its vector counts it in column `c`. */
  ghost predicate IsRefTable(t: map<string, seq<int>>, cols: seq<seq<string>>, n: nat) {
    && |cols| <= n
    && (forall k :: k in t <==> Occurs(cols, k))
    && (forall k :: k in t ==> |t[k]| == n)
    && (forall k, c :: k in t && 0 <= c < n ==> t[k][c] == ColumnCount(cols, c, k))
  }

  /** `t` is the target table of `keys` against `ref`: exactly the keys that also occur in
      the reference table, each with its number of occurrences. */
  ghost predicate IsTrgTable(t: map<string, int>, keys: seq<string>, ref: map<string, seq<int>>) {
    && (forall k :: k in t <==> k in keys && k in ref)
    && (forall k :: k in t ==> t[k] == multiset(keys)[k])
  }

  /** The reference table is determined by its columns. */
  lemma RefTableUnique(t1: map<string, seq<int>>, t2: map<string, seq<int>>, cols: seq<seq<string>>, n: nat)
    requires IsRefTable(t1, cols, n) && IsRefTable(t2, cols, n)
    ensures t1 == t2
  {
    forall k | k in t1 ensures k in t2 && t1[k] == t2[k] {
      assert k in t2;
      assert forall c :: 0 <= c < n ==> t1[k][c] == t2[k][c];
    }
    assert t1.Keys == t2.Keys;
  }

  /** Every vector of a reference table has a positive slot, and no negative one. */
  lemma {:induction false} RefTableEntries(t: map<string, seq<int>>, cols: seq<seq<string>>, n: nat, k: string)
    requires IsRefTable(t, cols, n) && k in t
    ensures forall c :: 0 <= c < |t[k]| ==> t[k][c] >= 0
    ensures exists c :: 0 <= c < |t[k]| && t[k][c] >= 1
  {
    var c :| 0 <= c < |cols| && k in cols[c];
    assert t[k][c] == multiset(cols[c])[k] >= 1;
  }

  /** `sum(freq)` */
  function VecSum(v: seq<int>): int {
    if v == [] then 0 else VecSum(v[..|v| - 1]) + v[|v| - 1]
  }

  /** `sum([1 for i in freq if i > 0])`: the number of reference files holding the key. */
  function PresentCount(v: seq<int>): (n: nat)
    ensures n <= |v|
  {
    if v == [] then 0 else PresentCount(v[..|v| - 1]) + (if v[|v| - 1] > 0 then 1 else 0)
  }

  predicate NonNegative(v: seq<int>) {
    forall i :: 0 <= i < |v| ==> v[i] >= 0
  }

  /** A vector with no negative slot and a positive one weighs at least 1 either way. */
  lemma {:induction false} WeightPositive(v: seq<int>, c: nat)
    requires NonNegative(v) && c < |v| && v[c] >= 1
    ensures VecSum(v) >= 1 && PresentCount(v) >= 1
  {
    var init := v[..|v| - 1];
    assert NonNegative(init);
    if c < |v| - 1 {
      WeightPositive(init, c);
    } else {
      VecSumNonNegative(init);
    }
  }

  lemma {:induction false} VecSumNonNegative(v: seq<int>)
    requires NonNegative(v)
    ensures VecSum(v) >= 0
  {
    if v != [] {
      assert NonNegative(v[..|v| - 1]);
      VecSumNonNegative(v[..|v| - 1]);
    }
  }

  function Min(a: int, b: int): int {
    if a <= b then a else b
  }

  /** `for ref_freq in freq: numerator += min(t, ref_freq)`: the matches of one key,
      column by column, capped by the target count. Never more than the column total,
      never more than the number of holding columns when the target count is at most 1. */
  function MatchSum(t: int, v: seq<int>): (r: int)
    ensures r <= VecSum(v)
    ensures t <= 1 ==> r <= PresentCount(v)
    ensures t >= 0 && NonNegative(v) ==> r >= 0
  {
    if v == [] then 0
    else
      assert NonNegative(v) ==> NonNegative(v[..|v| - 1]);
      MatchSum(t, v[..|v| - 1]) + Min(t, v[|v| - 1])
  }

  /** What one reference key adds to the denominator. */
  function Weight(v: seq<int>, ignoreFreq: bool): int {
    if ignoreFreq then PresentCount(v) else VecSum(v)
  }

  /** The sum of the values of a map, whatever order its keys are visited in. */
  ghost function SumValues(m: map<string, int>): int
    decreases |m|
  {
    if m == map[] then 0
    else
      var k :| k in m;
      m[k] + SumValues(m - {k})
  }

  /** Any key can be taken out first. */
  lemma {:induction false} SumValuesRemove(m: map<string, int>, k: string)
    requires k in m
    ensures SumValues(m) == m[k] + SumValues(m - {k})
    decreases |m|
  {
    var j :| j in m && SumValues(m) == m[j] + SumValues(m - {j});
    if j != k {
      assert |m - {j}| < |m| by { assert (m - {j}).Keys < m.Keys; }
      assert |m - {k}| < |m| by { assert (m - {k}).Keys < m.Keys; }
      SumValuesRemove(m - {j}, k);
      SumValuesRemove(m - {k}, j);
      assert m - {j} - {k} == m - {k} - {j};
    }
  }

  /** A map that is pointwise below another, on fewer keys, when the extra keys of the
      larger one carry no negative value, sums to no more. */
  lemma {:induction false} SumValuesMonotone(a: map<string, int>, b: map<string, int>)
    requires a.Keys <= b.Keys
    requires forall k :: k in a ==> a[k] <= b[k]
    requires forall k :: k in b && k !in a ==> b[k] >= 0
    ensures SumValues(a) <= SumValues(b)
    decreases |b|
  {
    if b != map[] {
      var k :| k in b;
      assert |b - {k}| < |b| by { assert (b - {k}).Keys < b.Keys; }
      SumValuesRemove(b, k);
      if k in a {
        SumValuesRemove(a, k);
        SumValuesMonotone(a - {k}, b - {k});
      } else {
        assert a.Keys <= (b - {k}).Keys;
        SumValuesMonotone(a, b - {k});
      }
    } else {
      assert a == map[];
    }
  }

  /** The entries of `m` whose keys are in `keys`. */
  function Restrict<V>(m: map<string, V>, keys: set<string>): map<string, V> {
    map k | k in m && k in keys :: m[k]
  }

  /** One step of a loop that visits the keys still in `rest`. */
  lemma SumRestrictStep(m: map<string, int>, rest: set<string>, k: string)
    requires k in m && k in rest
    ensures SumValues(Restrict(m, rest)) == m[k] + SumValues(Restrict(m, rest - {k}))
  {
    SumValuesRemove(Restrict(m, rest), k);
    assert Restrict(m, rest) - {k} == Restrict(m, rest - {k});
  }

  /** What each reference key adds to the denominator. */
  function DenominatorTerms(ref: map<string, seq<int>>, ignoreFreq: bool): map<string, int> {
    map k | k in ref :: Weight(ref[k], ignoreFreq)
  }

  /** What each key of the target table adds to the numerator: its matches when it is also
      a reference key (with the target count taken as 1 under `ignore_freq`). */
  function NumeratorTerms(trg: map<string, int>, ref: map<string, seq<int>>, ignoreFreq: bool): map<string, int> {
    map k | k in trg && k in ref :: MatchSum(if ignoreFreq then 1 else trg[k], ref[k])
  }

  ghost function Denominator(ref: map<string, seq<int>>, ignoreFreq: bool): int {
    SumValues(DenominatorTerms(ref, ignoreFreq))
  }

  ghost function Numerator(trg: map<string, int>, ref: map<string, seq<int>>, ignoreFreq: bool): int {
    SumValues(NumeratorTerms(trg, ref, ignoreFreq))
  }

  /** No reference vector has a negative slot and no target count is negative. */
  ghost predicate Counts(trg: map<string, int>, ref: map<string, seq<int>>) {
    && (forall k :: k in ref ==> NonNegative(ref[k]))
    && (forall k :: k in trg ==> trg[k] >= 0)
  }

  /** The score is a ratio in [0, 1]: 0 <= numerator <= denominator, in both modes. */
  lemma NumeratorBounds(trg: map<string, int>, ref: map<string, seq<int>>, ignoreFreq: bool)
    requires Counts(trg, ref)
    ensures 0 <= Numerator(trg, ref, ignoreFreq) <= Denominator(ref, ignoreFreq)
  {
    var num, den := NumeratorTerms(trg, ref, ignoreFreq), DenominatorTerms(ref, ignoreFreq);
    forall k | k in den && k !in num ensures den[k] >= 0 {
      VecSumNonNegative(ref[k]);
    }
    SumValuesMonotone(num, den);
    SumValuesMonotone(map[], num);
    assert SumValues(map[]) == 0;
  }

  /** The denominator is zero exactly when the reference table is empty, that is when no
      reference file has a single allowed relation; the division then fails. */
  lemma DenominatorZeroIff(ref: map<string, seq<int>>, cols: seq<seq<string>>, n: nat, ignoreFreq: bool)
    requires IsRefTable(ref, cols, n)
    ensures Denominator(ref, ignoreFreq) == 0 <==> ref == map[]
  {
    var den := DenominatorTerms(ref, ignoreFreq);
    if ref != map[] {
      var k :| k in ref;
      RefTableEntries(ref, cols, n, k);
      var c :| 0 <= c < |ref[k]| && ref[k][c] >= 1;
      WeightPositive(ref[k], c);
      forall j | j in den && j !in map[k := den[k]] ensures den[j] >= 0 {
        RefTableEntries(ref, cols, n, j);
        VecSumNonNegative(ref[j]);
      }
      SumValuesMonotone(map[k := den[k]], den);
      SumValuesRemove(map[k := den[k]], k);
      assert map[k := den[k]] - {k} == map[];
    } else {
      assert den == map[];
    }
  }

  /** A line written by the dependency parser for an allowed relation gives the key of
      its Basic Element, or the KeyError of its first token without a label. */
  lemma LineKeyRendered(rel: string, w1: string, p1: string, w2: string, p2: string,
                        relSet: seq<string>, assign: bool, cls: map<string, string>)
    requires '(' !in rel && Carriable(w1) && Carriable(w2) && IsPosition(p1) && IsPosition(p2)
    requires RelHead(rel) in relSet
    ensures var t := Triple(rel, w1, w2);
            LineKey(RenderLine(rel, w1, p1, w2, p2), relSet, assign, cls) ==
              if assign && w1 !in cls then Err(MissingCluster(w1))
              else if assign && w2 !in cls then Err(MissingCluster(w2))
              else Ok(Some(Normalize(t, assign, cls)))
  {
    ParseRendered(rel, w1, p1, w2, p2, relSet);
  }

  /** One more line that gives a key appends that key. */
  lemma FileKeysSnoc(lines: seq<string>, line: string, ks: seq<string>, k: string,
                     relSet: seq<string>, assign: bool, cls: map<string, string>)
    requires FileKeys(lines, relSet, assign, cls) == Ok(ks)
    requires LineKey(line, relSet, assign, cls) == Ok(Some(k))
    ensures FileKeys(lines + [line], relSet, assign, cls) == Ok(ks + [k])
  {
    var all := lines + [line];
    assert all[..|all| - 1] == lines;
  }

  /** One more line that gives no key leaves the keys as they are. */
  lemma FileKeysSkip(lines: seq<string>, line: string, ks: seq<string>,
                     relSet: seq<string>, assign: bool, cls: map<string, string>)
    requires FileKeys(lines, relSet, assign, cls) == Ok(ks)
    requires LineKey(line, relSet, assign, cls) == Ok(None)
    ensures FileKeys(lines + [line], relSet, assign, cls) == Ok(ks)
  {
    var all := lines + [line];
    assert all[..|all| - 1] == lines;
  }

  /** One more line that raises makes the file raise that error. */
  lemma FileKeysRaise(lines: seq<string>, line: string, e: Error,
                      relSet: seq<string>, assign: bool, cls: map<string, string>)
    requires FileKeys(lines, relSet, assign, cls).Ok?
    requires LineKey(line, relSet, assign, cls) == Err(e)
    ensures FileKeys(lines + [line], relSet, assign, cls) == Err(e)
  {
    var all := lines + [line];
    assert all[..|all| - 1] == lines;
  }

  /** The first error of a file is the error of the whole file: the lines after it are
      never read. */
  lemma {:induction false} FileKeysErrorPersists(lines: seq<string>, k: nat, relSet: seq<string>, assign: bool, cls: map<string, string>)
    requires k <= |lines| && FileKeys(lines[..k], relSet, assign, cls).Err?
    ensures FileKeys(lines, relSet, assign, cls) == FileKeys(lines[..k], relSet, assign, cls)
    decreases |lines|
  {
    if k < |lines| {
      var init := lines[..|lines| - 1];
      assert init[..k] == lines[..k];
      FileKeysErrorPersists(init, k, relSet, assign, cls);
    } else {
      assert lines[..k] == lines;
    }
  }

  /** One more reference file that reads without error adds its keys as a new column. */
  lemma ColumnsSnoc(names: seq<string>, name: string, cols: seq<seq<string>>, ks: seq<string>,
                    dir: Directory, relSet: seq<string>, assign: bool, cls: map<string, string>)
    requires Columns(names, dir, relSet, assign, cls) == Ok(cols)
    requires ReadKeys(name, dir, relSet, assign, cls) == Ok(ks)
    ensures Columns(names + [name], dir, relSet, assign, cls) == Ok(cols + [ks])
  {
    var all := names + [name];
    assert all[..|all| - 1] == names;
  }

  /** One more reference file that is missing, or that raises, makes the topic raise. */
  lemma ColumnsRaise(names: seq<string>, name: string, dir: Directory, relSet: seq<string>, assign: bool, cls: map<string, string>)
    requires Columns(names, dir, relSet, assign, cls).Ok?
    requires ReadKeys(name, dir, relSet, assign, cls).Err?
    ensures Columns(names + [name], dir, relSet, assign, cls) == Err(ReadKeys(name, dir, relSet, assign, cls).error)
  {
    var all := names + [name];
    assert all[..|all| - 1] == names;
  }

  /** The first error among the reference files is the error of the topic. */
  lemma {:induction false} ColumnsErrorPersists(names: seq<string>, k: nat, dir: Directory, relSet: seq<string>, assign: bool, cls: map<string, string>)
    requires k <= |names| && Columns(names[..k], dir, relSet, assign, cls).Err?
    ensures Columns(names, dir, relSet, assign, cls) == Columns(names[..k], dir, relSet, assign, cls)
    decreases |names|
  {
    if k < |names| {
      var init := names[..|names| - 1];
      assert init[..k] == names[..k];
      ColumnsErrorPersists(init, k, dir, relSet, assign, cls);
    } else {
      assert names[..k] == names;
    }
  }

  /** `[0 for _ in range(n)]` */
  function Zeros(n: nat): (v: seq<int>)
    ensures |v| == n && forall i :: 0 <= i < n ==> v[i] == 0
  {
    seq(n, _ => 0)
  }

  /** Before any file is read the table is empty. */
  lemma RefTableEmpty(n: nat)
    ensures IsRefTable(map[], [], n)
  {
  }

  /** Starting the next file opens an empty column and changes no count. */
  lemma RefTableOpen(t: map<string, seq<int>>, cols: seq<seq<string>>, n: nat)
    requires IsRefTable(t, cols, n) && |cols| < n
    ensures IsRefTable(t, cols + [[]], n)
  {
    var all := cols + [[]];
    forall k ensures Occurs(all, k) <==> Occurs(cols, k) {
      if c :| 0 <= c < |all| && k in all[c] {
        assert c < |cols| && k in cols[c];
      }
      if c :| 0 <= c < |cols| && k in cols[c] {
        assert k in all[c];
      }
    }
    forall k, c | 0 <= c < n ensures ColumnCount(all, c, k) == ColumnCount(cols, c, k) {
    }
  }

  /** Appending `k` to the open column adds one to its count there and nowhere else. */
  lemma ColumnCountSnoc(cols: seq<seq<string>>, col: seq<string>, k: string)
    ensures forall j, c :: ColumnCount(cols + [col + [k]], c, j) ==
              ColumnCount(cols + [col], c, j) + if c == |cols| && j == k then 1 else 0
  {
    var a, b := cols + [col], cols + [col + [k]];
    forall j, c ensures ColumnCount(b, c, j) == ColumnCount(a, c, j) + if c == |cols| && j == k then 1 else 0 {
      if c == |cols| {
        assert multiset(col + [k]) == multiset(col) + multiset{k};
      }
    }
  }

  /** A key occurs in the columns with `k` appended to the open one exactly when it did
      before or is `k`. */
  lemma OccursSnoc(cols: seq<seq<string>>, col: seq<string>, k: string)
    ensures forall j :: Occurs(cols + [col + [k]], j) <==> Occurs(cols + [col], j) || j == k
  {
    var a, b := cols + [col], cols + [col + [k]];
    assert k in b[|cols|];
    forall j ensures Occurs(b, j) ==> Occurs(a, j) || j == k {
      if c :| 0 <= c < |b| && j in b[c] {
        if c < |cols| {
          assert j in a[c];
        } else if j != k {
          assert j in a[c];
        }
      }
    }
    forall j ensures Occurs(a, j) ==> Occurs(b, j) {
      if c :| 0 <= c < |a| && j in a[c] {
        assert j in b[c];
      }
    }
  }

  /** `ref_count[be][counter] += 1` for a key already in the table. */
  lemma RefTableIncrement(t: map<string, seq<int>>, cols: seq<seq<string>>, col: seq<string>, k: string, n: nat)
    requires IsRefTable(t, cols + [col], n) && |cols| < n && k in t
    ensures IsRefTable(t[k := t[k][|cols| := t[k][|cols|] + 1]], cols + [col + [k]], n)
  {
    ColumnCountSnoc(cols, col, k);
    OccursSnoc(cols, col, k);
  }

  /** A new key gets a vector of zeros with a 1 in the open column. */
  lemma RefTableInsert(t: map<string, seq<int>>, cols: seq<seq<string>>, col: seq<string>, k: string, n: nat)
    requires IsRefTable(t, cols + [col], n) && |cols| < n && k !in t
    ensures IsRefTable(t[k := Zeros(n)[|cols| := 1]], cols + [col + [k]], n)
  {
    var a := cols + [col];
    ColumnCountSnoc(cols, col, k);
    OccursSnoc(cols, col, k);
    forall c | 0 <= c < |a| ensures multiset(a[c])[k] == 0 {
      assert k !in a[c];
    }
    assert forall c :: ColumnCount(a, c, k) == 0;
  }

  /** Every vector of `t` has `n` slots. */
  predicate Slots(t: map<string, seq<int>>, n: nat) {
    forall k :: k in t ==> |t[k]| == n
  }

  /** The slot updates of one reference file: each of its keys, in order, adds one to
      slot `c` of its vector, a new key starting from zeros. */
  function Tally(t: map<string, seq<int>>, c: nat, n: nat, keys: seq<string>): (u: map<string, seq<int>>)
    requires c < n && Slots(t, n)
    ensures Slots(u, n)
  {
    if keys == [] then t else Bump(Tally(t, c, n, keys[..|keys| - 1]), c, n, keys[|keys| - 1])
  }

  /** `ref_count[be][counter] += 1` for a key already present, otherwise a vector of zeros
      with a 1 in slot `counter`. */
  function Bump(t: map<string, seq<int>>, c: nat, n: nat, k: string): (u: map<string, seq<int>>)
    requires c < n && Slots(t, n)
    ensures Slots(u, n)
  {
    if k in t then t[k := t[k][c := t[k][c] + 1]] else t[k := Zeros(n)[c := 1]]
  }

  lemma TallySnoc(t: map<string, seq<int>>, c: nat, n: nat, keys: seq<string>, k: string)
    requires c < n && Slots(t, n)
    ensures Tally(t, c, n, keys + [k]) == Bump(Tally(t, c, n, keys), c, n, k)
  {
    var all := keys + [k];
    assert all[..|all| - 1] == keys;
  }

  /** Counting the keys of the next file into its open column gives the reference table
      of the columns with that file's keys. */
  lemma {:induction false} TallyIsRefTable(t: map<string, seq<int>>, cols: seq<seq<string>>, col: seq<string>, n: nat)
    requires |cols| < n && IsRefTable(t, cols + [[]], n)
    ensures IsRefTable(Tally(t, |cols|, n, col), cols + [col], n)
  {
    if col != [] {
      var init, k := col[..|col| - 1], col[|col| - 1];
      TallyIsRefTable(t, cols, init, n);
      var u := Tally(t, |cols|, n, init);
      if k in u {
        RefTableIncrement(u, cols, init, k, n);
      } else {
        RefTableInsert(u, cols, init, k, n);
      }
      assert col == init + [k];
    } else {
      assert cols + [col] == cols + [[]];
    }
  }

  /** Before the target is read its table is empty. */
  lemma TrgTableEmpty(ref: map<string, seq<int>>)
    ensures IsTrgTable(map[], [], ref)
  {
  }

  /** One more key of the target: counted again when already counted, counted once when it
      is a reference key, ignored otherwise. */
  lemma TrgTableStep(t: map<string, int>, keys: seq<string>, k: string, ref: map<string, seq<int>>)
    requires IsTrgTable(t, keys, ref)
    ensures IsTrgTable(if k in t then t[k := t[k] + 1] else if k in ref then t[k := 1] else t, keys + [k], ref)
  {
    assert multiset(keys + [k]) == multiset(keys) + multiset{k};
    assert forall j :: j in keys + [k] <==> j in keys || j == k;
  }

  /** A file repeating one line gives that line's key once per copy. */
  lemma FileKeysRepeat(line: string, k: string, relSet: seq<string>, assign: bool, cls: map<string, string>)
    requires LineKey(line, relSet, assign, cls) == Ok(Some(k))
    ensures FileKeys([line], relSet, assign, cls) == Ok([k])
    ensures FileKeys([line] + [line], relSet, assign, cls) == Ok([k] + [k])
  {
    FileKeysSingle(line, k, relSet, assign, cls);
    FileKeysSnoc([line], line, [k], k, relSet, assign, cls);
  }

  lemma FileKeysSingle(line: string, k: string, relSet: seq<string>, assign: bool, cls: map<string, string>)
    requires LineKey(line, relSet, assign, cls) == Ok(Some(k))
    ensures FileKeys([line], relSet, assign, cls) == Ok([k])
  {
    FileKeysSnoc([], line, [], k, relSet, assign, cls);
    assert [] + [line] == [line] && [] + [k] == [k];
  }

  /** One reference with the line `nsubj(dog-1, barks-2)`, a target with that line twice:
      the keys each file gives without clusters. */
  lemma ScenarioKeys(rel: string, w1: string, p1: string, w2: string, p2: string, relSet: seq<string>)
    requires rel == "nsubj" && w1 == "dog" && p1 == "1" && w2 == "barks" && p2 == "2" && relSet == [rel]
    ensures var line := RenderLine(rel, w1, p1, w2, p2);
            && FileKeys([line], relSet, false, map[]) == Ok([BEKey(rel, w1, w2)])
            && FileKeys([line] + [line], relSet, false, map[]) == Ok([BEKey(rel, w1, w2)] + [BEKey(rel, w1, w2)])
  {
    CharAbsentPair(w1);
    CharAbsentPair(w2);
    assert IsPosition(p1) && IsPosition(p2);
    assert RelHead(rel) in relSet;
    LineKeyRendered(rel, w1, p1, w2, p2, relSet, false, map[]);
    FileKeysRepeat(RenderLine(rel, w1, p1, w2, p2), BEKey(rel, w1, w2), relSet, false, map[]);
  }

  lemma CharAbsentPair(w: string)
    requires ',' !in w && '(' !in w
    ensures Carriable(w)
  {
    forall j ensures !OccursAt(w, ", ", j) {
      if 0 <= j && j + 2 <= |w| {
        assert w[j..j + 2][0] == w[j];
      }
    }
  }

  lemma ScenarioTables(ref: map<string, seq<int>>, trg: map<string, int>)
    requires IsRefTable(ref, [["nsubj dog barks"]], 1)
    requires IsTrgTable(trg, ["nsubj dog barks", "nsubj dog barks"], ref)
    ensures ref == map["nsubj dog barks" := [1]]
    ensures trg == map["nsubj dog barks" := 2]
    ensures Denominator(ref, false) == 1 && Numerator(trg, ref, false) == 1
    ensures Denominator(ref, true) == 1 && Numerator(trg, ref, true) == 1
  {
    var k := "nsubj dog barks";
    ScenarioRef(ref, k);
    ScenarioTrg(trg, ref, k);
    ScenarioScore(k, false);
    ScenarioScore(k, true);
  }

  /** One reference file holding key `k` once gives the vector `[1]` for `k`. */
  lemma ScenarioRef(ref: map<string, seq<int>>, k: string)
    requires IsRefTable(ref, [[k]], 1)
    ensures ref == map[k := [1]]
  {
    assert k in [[k]][0];
    assert ColumnCount([[k]], 0, k) == multiset([k])[k] == 1;
    assert IsRefTable(map[k := [1]], [[k]], 1);
    RefTableUnique(ref, map[k := [1]], [[k]], 1);
  }

  /** A target holding `k` twice counts it twice. */
  lemma ScenarioTrg(trg: map<string, int>, ref: map<string, seq<int>>, k: string)
    requires ref == map[k := [1]]
    requires IsTrgTable(trg, [k, k], ref)
    ensures trg == map[k := 2]
  {
    assert multiset([k, k])[k] == 2;
  }

  /** With those tables, numerator and denominator are both 1 in either mode. */
  lemma ScenarioScore(k: string, ignoreFreq: bool)
    ensures Denominator(map[k := [1]], ignoreFreq) == 1
    ensures Numerator(map[k := 2], map[k := [1]], ignoreFreq) == 1
  {
    assert VecSum([1]) == 1 && PresentCount([1]) == 1 by {
      assert [1][..0] == [];
    }
    assert DenominatorTerms(map[k := [1]], ignoreFreq) == map[k := 1];
    assert NumeratorTerms(map[k := 2], map[k := [1]], ignoreFreq) == map[k := 1];
    SumValuesRemove(map[k := 1], k);
    assert map[k := 1] - {k} == map[];
  }
}

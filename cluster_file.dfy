/** The cluster file that `clustering.py` writes for one target and `pBE.py` reads back:
    one `word<TAB>#id#` line per clustered word in order of cluster id, then one line per
    word without an embedding. A file is the sequence of its lines, line breaks removed. */
module ClusterFile {
  import opened Text

  /** One entry of `out_dict`: a word and the cluster id it was given. */
  datatype Assignment = Assignment(token: string, id: int)

  /** `'#{}#'.format(ID)`: the label that replaces a clustered word. */
  function ClusterLabel(id: int): (tag: string)
    ensures |tag| >= 3 && tag[0] == '#' && tag[|tag| - 1] == '#'
    ensures '\t' !in tag
  {
    var digits := IntToString(id);
    assert forall i :: 0 <= i < |digits| ==> digits[i] != '\t';
    "#" + digits + "#"
  }

  /** Two clusters never share a label. */
  lemma ClusterLabelInjective(a: int, b: int)
    requires ClusterLabel(a) == ClusterLabel(b)
    ensures a == b
  {
    var la, lb := ClusterLabel(a), ClusterLabel(b);
    assert la[1..|la| - 1] == IntToString(a);
    assert lb[1..|lb| - 1] == IntToString(b);
    IntToStringInjective(a, b);
  }

  /** `'{}\t#{}#\n'.format(vocab, ID)` without its line break. */
  function ClusterLine(a: Assignment): string {
    a.token + "\t" + ClusterLabel(a.id)
  }

  /** One line per assignment, in the order given. */
  function ClusterLines(items: seq<Assignment>): (lines: seq<string>)
    ensures |lines| == |items|
  {
    seq(|items|, i requires 0 <= i < |items| => ClusterLine(items[i]))
  }

  /** Writing one more assignment appends its line. */
  lemma ClusterLinesSnoc(items: seq<Assignment>, a: Assignment)
    ensures ClusterLines(items + [a]) == ClusterLines(items) + [ClusterLine(a)]
  {
    var all := items + [a];
    assert forall i :: 0 <= i < |items| ==> all[i] == items[i];
  }

  /** The lines of a cluster file: the assignments in the order given, then the OOV words. */
  function FileLines(items: seq<Assignment>, oov: seq<string>): (lines: seq<string>)
    ensures |lines| == |items| + |oov|
  {
    ClusterLines(items) + oov
  }

  /** Line `i` of a cluster file is the `i`-th assignment's line, and after them come the
      OOV words in order. */
  lemma FileLinesIndex(items: seq<Assignment>, oov: seq<string>)
    ensures forall i :: 0 <= i < |items| ==> FileLines(items, oov)[i] == ClusterLine(items[i])
    ensures forall i :: 0 <= i < |oov| ==> FileLines(items, oov)[|items| + i] == oov[i]
  {
  }

  predicate SortedById(items: seq<Assignment>) {
    forall i, j :: 0 <= i < j < |items| ==> items[i].id <= items[j].id
  }

  /** The items of cluster `x`, in order. */
  function WithId(items: seq<Assignment>, x: int): seq<Assignment> {
    if items == [] then []
    else WithId(items[..|items| - 1], x) + if items[|items| - 1].id == x then [items[|items| - 1]] else []
  }

  /** Puts `a` after every item, from the end, whose id is not larger than its own. */
  function Insert(a: Assignment, s: seq<Assignment>): seq<Assignment> {
    if s == [] || s[|s| - 1].id <= a.id then s + [a]
    else Insert(a, s[..|s| - 1]) + [s[|s| - 1]]
  }

  /** Inserting into a sorted list keeps it sorted, and adds exactly `a`. */
  lemma {:induction false} InsertSorted(a: Assignment, s: seq<Assignment>)
    requires SortedById(s)
    ensures SortedById(Insert(a, s))
    ensures multiset(Insert(a, s)) == multiset(s) + multiset{a}
  {
    if s == [] || s[|s| - 1].id <= a.id {
      assert Insert(a, s) == s + [a];
    } else {
      var init, last := s[..|s| - 1], s[|s| - 1];
      assert s == init + [last];
      InsertSorted(a, init);
      InsertBelow(a, init, last.id);
      assert Insert(a, s) == Insert(a, init) + [last];
    }
  }

  /** A bound on every id, `a`'s included, bounds the ids after inserting. */
  lemma {:induction false} InsertBelow(a: Assignment, s: seq<Assignment>, b: int)
    requires a.id <= b && forall i :: 0 <= i < |s| ==> s[i].id <= b
    ensures forall i :: 0 <= i < |Insert(a, s)| ==> Insert(a, s)[i].id <= b
  {
    if !(s == [] || s[|s| - 1].id <= a.id) {
      var init := s[..|s| - 1];
      InsertBelow(a, init, b);
      assert Insert(a, s) == Insert(a, init) + [s[|s| - 1]];
    }
  }

  /** `sorted(out_dict.items(), key=lambda x: x[1])`: ordered by cluster id, and stable. */
  function SortById(items: seq<Assignment>): (r: seq<Assignment>)
    ensures SortedById(r)
    ensures multiset(r) == multiset(items)
  {
    if items == [] then []
    else
      var init, last := items[..|items| - 1], items[|items| - 1];
      assert items == init + [last];
      InsertSorted(last, SortById(init));
      Insert(last, SortById(init))
  }

  lemma {:induction false} InsertWithId(a: Assignment, s: seq<Assignment>, x: int)
    ensures WithId(Insert(a, s), x) == WithId(s, x) + if a.id == x then [a] else []
  {
    if s == [] || s[|s| - 1].id <= a.id {
      assert Insert(a, s) == s + [a];
      WithIdSnoc(s, a, x);
    } else {
      var init, last := s[..|s| - 1], s[|s| - 1];
      assert s == init + [last];
      InsertWithId(a, init, x);
      assert Insert(a, s) == Insert(a, init) + [last];
      WithIdSnoc(Insert(a, init), last, x);
      WithIdSnoc(init, last, x);
      var w := WithId(init, x);
      if a.id == x {
        assert WithId(Insert(a, s), x) == w + [a];
      } else {
        assert WithId(Insert(a, s), x) == w + if last.id == x then [last] else [];
      }
    }
  }

  lemma WithIdSnoc(s: seq<Assignment>, a: Assignment, x: int)
    ensures WithId(s + [a], x) == WithId(s, x) + if a.id == x then [a] else []
  {
    assert (s + [a])[..|s|] == s;
  }

  /** Sorting keeps the order of the words within each cluster. */
  lemma {:induction false} SortStable(items: seq<Assignment>, x: int)
    ensures WithId(SortById(items), x) == WithId(items, x)
  {
    if items != [] {
      var init, last := items[..|items| - 1], items[|items| - 1];
      SortStable(init, x);
      InsertWithId(last, SortById(init), x);
    }
  }

  /** The words of the items. */
  function TokenSet(items: seq<Assignment>): set<string> {
    if items == [] then {} else TokenSet(items[..|items| - 1]) + {items[|items| - 1].token}
  }

  lemma TokenSetSnoc(items: seq<Assignment>, a: Assignment)
    ensures TokenSet(items + [a]) == TokenSet(items) + {a.token}
  {
    assert (items + [a])[..|items|] == items;
  }

  /** A word is in `TokenSet(items)` exactly when some item carries it. */
  lemma {:induction false} TokenSetIff(items: seq<Assignment>, w: string)
    ensures w in TokenSet(items) <==> exists i :: 0 <= i < |items| && items[i].token == w
  {
    if items != [] {
      var init := items[..|items| - 1];
      TokenSetIff(init, w);
      if exists i :: 0 <= i < |init| && init[i].token == w {
        var i :| 0 <= i < |init| && init[i].token == w;
        assert items[i].token == w;
      }
      if exists i :: 0 <= i < |items| && items[i].token == w {
        var i :| 0 <= i < |items| && items[i].token == w;
        if i < |init| {
          assert init[i].token == w;
        }
      }
    }
  }

  /** No word occurs in two items. */
  predicate DistinctTokens(items: seq<Assignment>) {
    forall i, j :: 0 <= i < j < |items| ==> items[i].token != items[j].token
  }

  lemma DistinctSnoc(items: seq<Assignment>, a: Assignment)
    ensures DistinctTokens(items + [a]) <==> DistinctTokens(items) && a.token !in TokenSet(items)
  {
    var all := items + [a];
    TokenSetIff(items, a.token);
    assert forall i :: 0 <= i < |items| ==> all[i] == items[i];
    if DistinctTokens(all) {
      assert forall i :: 0 <= i < |items| ==> items[i].token != all[|items|].token;
    }
  }

  lemma {:induction false} InsertTokens(a: Assignment, s: seq<Assignment>)
    ensures TokenSet(Insert(a, s)) == TokenSet(s) + {a.token}
    ensures DistinctTokens(s) && a.token !in TokenSet(s) ==> DistinctTokens(Insert(a, s))
  {
    if s == [] || s[|s| - 1].id <= a.id {
      assert Insert(a, s) == s + [a];
      TokenSetSnoc(s, a);
      DistinctSnoc(s, a);
    } else {
      var init, last := s[..|s| - 1], s[|s| - 1];
      assert s == init + [last];
      InsertTokens(a, init);
      var r := Insert(a, init);
      assert Insert(a, s) == r + [last];
      TokenSetSnoc(r, last);
      TokenSetSnoc(init, last);
      DistinctSnoc(init, last);
      DistinctSnoc(r, last);
    }
  }

  /** Sorting keeps the words of the items, and keeps them distinct. */
  lemma {:induction false} SortTokens(items: seq<Assignment>)
    ensures TokenSet(SortById(items)) == TokenSet(items)
    ensures DistinctTokens(items) ==> DistinctTokens(SortById(items))
  {
    if items != [] {
      var init, last := items[..|items| - 1], items[|items| - 1];
      assert items == init + [last];
      SortTokens(init);
      InsertTokens(last, SortById(init));
      TokenSetSnoc(init, last);
      DistinctSnoc(init, last);
    }
  }

  /** One line as `get_cls_dict` reads it: the word and the value it is given. */
  function ReadEntry(line: string): (string, string) {
    var l := RStrip(line);
    var parts := Split(l, "\t");
    if |parts| == 2 then (parts[0], parts[1]) else (l, l)
  }

  /** `word, ID = line.rstrip().split('\t')` succeeds exactly when the stripped line holds
      one tab, and splits it there; otherwise the stripped line is its own value. */
  lemma ReadEntryMeaning(line: string)
    ensures var l, e := RStrip(line), ReadEntry(line);
            if multiset(l)['\t'] == 1 then e.0 + "\t" + e.1 == l && '\t' !in e.0 && '\t' !in e.1
            else e == (l, l)
  {
    var l := RStrip(line);
    var parts := Split(l, "\t");
    SplitCountChar(l, '\t');
    if |parts| == 2 {
      CharAbsent2(parts[0], parts[1]);
    }
  }

  lemma CharAbsent2(a: string, b: string)
    requires forall j :: !OccursAt(a, "\t", j)
    requires forall j :: !OccursAt(b, "\t", j)
    ensures '\t' !in a && '\t' !in b
  {
    forall j | 0 <= j < |a| ensures a[j] != '\t' {
      assert !OccursAt(a, "\t", j) && a[j..j + 1] == [a[j]];
    }
    forall j | 0 <= j < |b| ensures b[j] != '\t' {
      assert !OccursAt(b, "\t", j) && b[j..j + 1] == [b[j]];
    }
  }

  /** The entry of every line, in order. */
  function Entries(lines: seq<string>): (es: seq<(string, string)>)
    ensures |es| == |lines|
    ensures forall i :: 0 <= i < |lines| ==> es[i] == ReadEntry(lines[i])
  {
    seq(|lines|, i requires 0 <= i < |lines| => ReadEntry(lines[i]))
  }

  /** `self.cls_dict[word] = ID` for every entry in turn: later entries win. */
  function Collect(es: seq<(string, string)>): (m: map<string, string>)
    ensures forall i :: 0 <= i < |es| ==> es[i].0 in m
    ensures forall w :: w in m ==> exists i :: 0 <= i < |es| && es[i].0 == w
  {
    if es == [] then map[]
    else
      var init, e := es[..|es| - 1], es[|es| - 1];
      assert forall i :: 0 <= i < |init| ==> init[i] == es[i];
      Collect(init)[e.0 := e.1]
  }

  /** The mapping `get_cls_dict` builds from the lines of a file. */
  function ReadClusterFile(lines: seq<string>): map<string, string> {
    Collect(Entries(lines))
  }

  /** One more line of the file sets (or resets) the entry of its word. */
  lemma ReadClusterFileSnoc(lines: seq<string>, line: string)
    ensures var e := ReadEntry(line);
            ReadClusterFile(lines + [line]) == ReadClusterFile(lines)[e.0 := e.1]
  {
    var es := Entries(lines + [line]);
    assert es[..|es| - 1] == Entries(lines);
  }

  /** When no word occurs twice, every entry's word maps to that entry's value. */
  lemma {:induction false} CollectDistinct(es: seq<(string, string)>)
    requires forall i, j :: 0 <= i < j < |es| ==> es[i].0 != es[j].0
    ensures forall i :: 0 <= i < |es| ==> Collect(es)[es[i].0] == es[i].1
  {
    if es != [] {
      var init, e := es[..|es| - 1], es[|es| - 1];
      assert forall i :: 0 <= i < |init| ==> init[i] == es[i];
      CollectDistinct(init);
    }
  }

  /** A clustered word's line reads back as the word and its label. */
  lemma ReadClusterLine(a: Assignment)
    requires '\t' !in a.token
    ensures ReadEntry(ClusterLine(a)) == (a.token, ClusterLabel(a.id))
  {
    var tag := ClusterLabel(a.id);
    var line := ClusterLine(a);
    assert line[|line| - 1] == '#';
    assert RStrip(line) == line;
    SplitOnce(a.token, '\t', tag);
  }

  /** A word the written file can carry as a bare line: no tab, no trailing whitespace. */
  predicate BareLine(w: string) {
    '\t' !in w && (w == [] || !IsSpace(w[|w| - 1]))
  }

  /** An OOV word's line reads back as the word mapped to itself. */
  lemma ReadOOVLine(w: string)
    requires BareLine(w)
    ensures ReadEntry(w) == (w, w)
  {
    CharAbsent(w, '\t');
    SplitNone(w, "\t");
    SplitCountChar(w, '\t');
  }

  /** Reading a written file back gives a mapping defined exactly on the clustered words and
      the OOV words: each clustered word to its label, each OOV word to itself. */
  lemma RoundTrip(items: seq<Assignment>, oov: seq<string>)
    requires forall i :: 0 <= i < |items| ==> '\t' !in items[i].token
    requires forall i :: 0 <= i < |oov| ==> BareLine(oov[i])
    requires forall i, j :: 0 <= i < j < |items| ==> items[i].token != items[j].token
    requires forall i, j :: 0 <= i < j < |oov| ==> oov[i] != oov[j]
    requires forall i, j :: 0 <= i < |items| && 0 <= j < |oov| ==> items[i].token != oov[j]
    ensures var m := ReadClusterFile(FileLines(items, oov));
            && (forall w :: w in m <==> w in oov || exists i :: 0 <= i < |items| && items[i].token == w)
            && (forall i :: 0 <= i < |items| ==> m[items[i].token] == ClusterLabel(items[i].id))
            && (forall i :: 0 <= i < |oov| ==> m[oov[i]] == oov[i])
  {
    FileEntries(items, oov);
    CollectFile(items, oov, Entries(FileLines(items, oov)));
  }

  /** Distinct words give entries with distinct words. */
  lemma EntriesDistinct(items: seq<Assignment>, oov: seq<string>, es: seq<(string, string)>)
    requires |es| == |items| + |oov|
    requires forall i :: 0 <= i < |items| ==> es[i] == (items[i].token, ClusterLabel(items[i].id))
    requires forall i :: 0 <= i < |oov| ==> es[|items| + i] == (oov[i], oov[i])
    requires forall i, j :: 0 <= i < j < |items| ==> items[i].token != items[j].token
    requires forall i, j :: 0 <= i < j < |oov| ==> oov[i] != oov[j]
    requires forall i, j :: 0 <= i < |items| && 0 <= j < |oov| ==> items[i].token != oov[j]
    ensures forall i, j :: 0 <= i < j < |es| ==> es[i].0 != es[j].0
  {
    OovEntriesDistinct(items, oov, es);
    MixedEntriesDistinct(items, oov, es);
  }

  lemma OovEntriesDistinct(items: seq<Assignment>, oov: seq<string>, es: seq<(string, string)>)
    requires |es| == |items| + |oov|
    requires forall i :: 0 <= i < |items| ==> es[i] == (items[i].token, ClusterLabel(items[i].id))
    requires forall i :: 0 <= i < |oov| ==> es[|items| + i] == (oov[i], oov[i])
    requires forall i, j :: 0 <= i < j < |oov| ==> oov[i] != oov[j]
    ensures forall i, j :: |items| <= i < j < |es| ==> es[i].0 != es[j].0
  {
    forall i, j | |items| <= i < j < |es| ensures es[i].0 != es[j].0 {
      var a, b := i - |items|, j - |items|;
      assert es[i] == es[|items| + a] == (oov[a], oov[a]);
      assert es[j] == es[|items| + b] == (oov[b], oov[b]);
    }
  }

  lemma MixedEntriesDistinct(items: seq<Assignment>, oov: seq<string>, es: seq<(string, string)>)
    requires |es| == |items| + |oov|
    requires forall i :: 0 <= i < |items| ==> es[i] == (items[i].token, ClusterLabel(items[i].id))
    requires forall i :: 0 <= i < |oov| ==> es[|items| + i] == (oov[i], oov[i])
    requires forall i, j :: 0 <= i < |items| && 0 <= j < |oov| ==> items[i].token != oov[j]
    ensures forall i, j :: 0 <= i < |items| <= j < |es| ==> es[i].0 != es[j].0
  {
    forall i, j | 0 <= i < |items| <= j < |es| ensures es[i].0 != es[j].0 {
      var b := j - |items|;
      assert es[j] == es[|items| + b] == (oov[b], oov[b]);
      assert items[i].token != oov[b];
    }
  }

  /** The entries read from a written file: one per clustered word with its label, then
      one per OOV word mapped to itself. */
  lemma FileEntries(items: seq<Assignment>, oov: seq<string>)
    requires forall i :: 0 <= i < |items| ==> '\t' !in items[i].token
    requires forall i :: 0 <= i < |oov| ==> BareLine(oov[i])
    ensures var es := Entries(FileLines(items, oov));
            && |es| == |items| + |oov|
            && (forall i :: 0 <= i < |items| ==> es[i] == (items[i].token, ClusterLabel(items[i].id)))
            && (forall i :: 0 <= i < |oov| ==> es[|items| + i] == (oov[i], oov[i]))
  {
    var es := Entries(FileLines(items, oov));
    FileLinesIndex(items, oov);
    forall i | 0 <= i < |items| ensures es[i] == (items[i].token, ClusterLabel(items[i].id)) {
      ReadClusterLine(items[i]);
    }
    forall i | 0 <= i < |oov| ensures es[|items| + i] == (oov[i], oov[i]) {
      ReadOOVLine(oov[i]);
    }
  }

  /** Collecting such entries gives the clustered words and the OOV words, each clustered
      word mapped to its label and each OOV word to itself. */
  lemma CollectFile(items: seq<Assignment>, oov: seq<string>, es: seq<(string, string)>)
    requires |es| == |items| + |oov|
    requires forall i :: 0 <= i < |items| ==> es[i] == (items[i].token, ClusterLabel(items[i].id))
    requires forall i :: 0 <= i < |oov| ==> es[|items| + i] == (oov[i], oov[i])
    requires forall i, j :: 0 <= i < j < |items| ==> items[i].token != items[j].token
    requires forall i, j :: 0 <= i < j < |oov| ==> oov[i] != oov[j]
    requires forall i, j :: 0 <= i < |items| && 0 <= j < |oov| ==> items[i].token != oov[j]
    ensures var m := Collect(es);
            && (forall w :: w in m <==> w in oov || exists i :: 0 <= i < |items| && items[i].token == w)
            && (forall i :: 0 <= i < |items| ==> m[items[i].token] == ClusterLabel(items[i].id))
            && (forall i :: 0 <= i < |oov| ==> m[oov[i]] == oov[i])
  {
    CollectKeys(items, oov, es);
    CollectValues(items, oov, es);
  }

  /** The words collected are the clustered words and the OOV words. */
  lemma CollectKeys(items: seq<Assignment>, oov: seq<string>, es: seq<(string, string)>)
    requires |es| == |items| + |oov|
    requires forall i :: 0 <= i < |items| ==> es[i] == (items[i].token, ClusterLabel(items[i].id))
    requires forall i :: 0 <= i < |oov| ==> es[|items| + i] == (oov[i], oov[i])
    ensures forall w :: w in Collect(es) <==> w in oov || exists i :: 0 <= i < |items| && items[i].token == w
  {
    var m := Collect(es);
    forall w | w in m ensures w in oov || exists i :: 0 <= i < |items| && items[i].token == w {
      var i :| 0 <= i < |es| && es[i].0 == w;
      if i >= |items| {
        assert oov[i - |items|] == w;
      }
    }
    forall w | w in oov ensures w in m {
      var j :| 0 <= j < |oov| && oov[j] == w;
      assert es[|items| + j].0 == w;
    }
  }

  /** With no word twice, each clustered word gets its label and each OOV word itself. */
  lemma CollectValues(items: seq<Assignment>, oov: seq<string>, es: seq<(string, string)>)
    requires |es| == |items| + |oov|
    requires forall i :: 0 <= i < |items| ==> es[i] == (items[i].token, ClusterLabel(items[i].id))
    requires forall i :: 0 <= i < |oov| ==> es[|items| + i] == (oov[i], oov[i])
    requires forall i, j :: 0 <= i < j < |items| ==> items[i].token != items[j].token
    requires forall i, j :: 0 <= i < j < |oov| ==> oov[i] != oov[j]
    requires forall i, j :: 0 <= i < |items| && 0 <= j < |oov| ==> items[i].token != oov[j]
    ensures forall i :: 0 <= i < |items| ==> Collect(es)[items[i].token] == ClusterLabel(items[i].id)
    ensures forall i :: 0 <= i < |oov| ==> Collect(es)[oov[i]] == oov[i]
  {
    EntriesDistinct(items, oov, es);
    CollectDistinct(es);
    forall i | 0 <= i < |oov| ensures Collect(es)[oov[i]] == oov[i] {
      assert es[|items| + i] == (oov[i], oov[i]);
    }
  }

  /** An OOV word ending in whitespace does not survive: its line is read back stripped, so
      the word itself is missing from the mapping and its lookup raises KeyError. */
  lemma TrailingSpaceLost(w: string)
    requires '\t' !in w && w != [] && IsSpace(w[|w| - 1])
    ensures ReadClusterFile(FileLines([], [w])) == map[RStrip(w) := RStrip(w)]
    ensures w !in ReadClusterFile(FileLines([], [w]))
  {
    var l := RStrip(w);
    assert FileLines([], [w]) == [w] by {
      assert ClusterLines([]) == [];
    }
    ReadStripped(w);
    assert Entries([w]) == [(l, l)];
    CollectSingle((l, l));
    RStripChanges(w);
  }

  /** One entry gives a one-word mapping. */
  lemma CollectSingle(e: (string, string))
    ensures Collect([e]) == map[e.0 := e.1]
  {
    assert [e][..0] == [];
  }

  /** A line without a tab is read as its stripped text, mapped to itself. */
  lemma ReadStripped(line: string)
    requires '\t' !in line
    ensures ReadEntry(line) == (RStrip(line), RStrip(line))
  {
    var l := RStrip(line);
    assert '\t' !in l;
    ReadOOVLine(l);
    assert ReadEntry(line) == ReadEntry(l);
  }
}

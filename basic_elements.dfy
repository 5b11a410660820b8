/** Reading one dependency-relation line `rel(tok1-3, tok2-5)` into a Basic Element: the
    relation, then the two tokens with their word-position suffixes removed. `pBE.py` and
    `clustering.py` repeat this parse inline four times; here it is written once. */
module BasicElements {
  import opened Wrappers
  import opened Errors
  import opened Text

  /** A Basic Element as extracted from one line: the full relation label (sub-type
      included) and the two tokens without their positions. */
  datatype Triple = Triple(rel: string, token1: string, token2: string)

  /** `rel.split(':')[0]`: the relation without its sub-type; the whole label when it
      has no `:`. */
  function RelHead(rel: string): (head: string)
    ensures head <= rel && ':' !in head
    ensures |head| < |rel| ==> rel[|head|] == ':'
    ensures ':' !in rel ==> head == rel
  {
    FirstField(rel, ':')
  }

  /** `[i.rstrip() for i in f]`: the allowed relation heads, one per line of their file. */
  function LoadRelations(lines: seq<string>): (relSet: seq<string>)
    ensures |relSet| == |lines|
    ensures forall i :: 0 <= i < |lines| ==> relSet[i] == RStrip(lines[i])
  {
    if lines == [] then [] else LoadRelations(lines[..|lines| - 1]) + [RStrip(lines[|lines| - 1])]
  }

  /** Length of the longest suffix of `s` made of digits only. */
  function DigitSuffixLength(s: string): (n: nat)
    ensures n <= |s|
    ensures forall i :: |s| - n <= i < |s| ==> IsDigit(s[i])
    ensures n < |s| ==> !IsDigit(s[|s| - n - 1])
  {
    if s != [] && IsDigit(s[|s| - 1]) then DigitSuffixLength(s[..|s| - 1]) + 1 else 0
  }

  /** The pattern `-[0-9]+$` matches `s` at position `k`: a hyphen followed by one or more
      digits that run to the end of the string. */
  predicate PositionSuffixAt(s: string, k: int) {
    0 <= k < |s| - 1 && s[k] == '-' && forall i :: k < i < |s| ==> IsDigit(s[i])
  }

  /** `self.position.sub('', s)` with the pattern `-[0-9]+$`: removes the word-position
      suffix when there is one, and leaves the string alone otherwise. At most one match
      is possible, so exactly one suffix goes. */
  function StripPosition(s: string): string {
    var n := DigitSuffixLength(s);
    if 0 < n < |s| && s[|s| - n - 1] == '-' then s[..|s| - n - 1] else s
  }

  /** The suffix removed is the one the pattern matches, and nothing goes when it does not
      match. */
  lemma StripPositionMeaning(s: string)
    ensures forall k :: PositionSuffixAt(s, k) ==> StripPosition(s) == s[..k]
    ensures (forall k :: !PositionSuffixAt(s, k)) ==> StripPosition(s) == s
  {
    var n := DigitSuffixLength(s);
    if 0 < n < |s| && s[|s| - n - 1] == '-' {
      assert PositionSuffixAt(s, |s| - n - 1);
    }
  }

  /** The `(rel, token1, token2)` of one line, `None` for a line that is blank or whose
      relation head is not allowed, or the ValueError an unpack raises. */
  function ParseLine(line: string, relSet: seq<string>): Result<Option<Triple>, Error> {
    var l := RStrip(line);
    if |l| == 0 then Ok(None)
    else
      var parts := Split(l, "(");
      if |parts| != 2 then Err(ParenUnpack(line))
      else
        var rel, tokens := parts[0], parts[1];
        if RelHead(rel) !in relSet then Ok(None)
        else
          var pieces := Split(RStripChar(tokens, ')'), ", ");
          if |pieces| != 2 then Err(TokenUnpack(line))
          else Ok(Some(Triple(rel, StripPosition(pieces[0]), StripPosition(pieces[1]))))
  }

  /** What a line gives: nothing for a blank line; the first unpack fails exactly when a
      non-blank line does not hold exactly one `(`; otherwise nothing exactly when the
      relation head before the `(` is not allowed; and a Basic Element only for an allowed
      head, whose relation is the text before the `(`. */
  lemma ParseLineMeaning(line: string, relSet: seq<string>)
    ensures var r, l := ParseLine(line, relSet), RStrip(line);
            && (l == [] ==> r == Ok(None))
            && (r == Err(ParenUnpack(line)) <==> l != [] && multiset(l)['('] != 1)
            && (l != [] && multiset(l)['('] == 1 ==> (r == Ok(None) <==> RelHead(FirstField(l, '(')) !in relSet))
            && (r.Ok? && r.value.Some? ==>
                  && RelHead(r.value.value.rel) in relSet
                  && r.value.value.rel + "(" <= l
                  && '(' !in r.value.value.rel)
  {
    var l := RStrip(line);
    if |l| != 0 {
      SplitPair(l, '(');
    }
  }

  /** For a non-blank line with one `(` and an allowed relation head, the second unpack
      fails exactly when the text after the `(`, without its trailing `)`, does not hold
      `", "` exactly once. */
  lemma ParseLineTokenUnpack(line: string, relSet: seq<string>)
    requires var l := RStrip(line);
             l != [] && multiset(l)['('] == 1 && RelHead(FirstField(l, '(')) in relSet
    ensures var l := RStrip(line);
            var tokens := l[|FirstField(l, '(')| + 1..];
            ParseLine(line, relSet) == Err(TokenUnpack(line)) <==> Count(RStripChar(tokens, ')'), ", ") != 1
  {
    var l := RStrip(line);
    SplitPair(l, '(');
    var p := Split(l, "(");
    assert p[1] == l[|p[0]| + 1..];
    SplitCount(RStripChar(p[1], ')'), ", ");
  }

  /** A parsed Basic Element has an allowed relation head. */
  lemma ParseLineAllowed(line: string, relSet: seq<string>)
    ensures ParseLine(line, relSet).Ok? && ParseLine(line, relSet).value.Some? ==>
              RelHead(ParseLine(line, relSet).value.value.rel) in relSet
  {
  }

  /** Every Basic Element of a file in line order, or the error of its first bad line. */
  function Extract(lines: seq<string>, relSet: seq<string>): (r: Result<seq<Triple>, Error>)
    ensures r.Ok? ==> |r.value| <= |lines|
    ensures r.Ok? ==> forall i :: 0 <= i < |r.value| ==> RelHead(r.value[i].rel) in relSet
  {
    if lines == [] then Ok([])
    else
      match Extract(lines[..|lines| - 1], relSet)
      case Err(e) => Err(e)
      case Ok(ts) =>
        ParseLineAllowed(lines[|lines| - 1], relSet);
        match ParseLine(lines[|lines| - 1], relSet)
        case Err(e) => Err(e)
        case Ok(None) => Ok(ts)
        case Ok(Some(t)) => Ok(ts + [t])
  }

  /** Both tokens of every Basic Element, in order: what the vocabulary loops append. */
  function Tokens(ts: seq<Triple>): (vocab: seq<string>)
    ensures |vocab| == 2 * |ts|
    ensures forall i :: 0 <= i < |ts| ==> vocab[2 * i] == ts[i].token1 && vocab[2 * i + 1] == ts[i].token2
  {
    if ts == [] then [] else Tokens(ts[..|ts| - 1]) + [ts[|ts| - 1].token1, ts[|ts| - 1].token2]
  }

  /** A well-formed word position: one or more digits. */
  predicate IsPosition(p: string) {
    |p| > 0 && forall i :: 0 <= i < |p| ==> IsDigit(p[i])
  }

  /** Stripping removes exactly the position a token was written with. */
  lemma StripRendered(w: string, p: string)
    requires IsPosition(p)
    ensures StripPosition(w + "-" + p) == w
  {
    var s := w + "-" + p;
    StripPositionMeaning(s);
    assert PositionSuffixAt(s, |w|);
    assert s[..|w|] == w;
  }

  /** Stripping is not idempotent: only the last position group goes. */
  lemma StripRemovesOneGroup()
    ensures StripPosition("a-1-2") == "a-1"
    ensures StripPosition(StripPosition("a-1-2")) == "a"
  {
    StripRendered("a-1", "2");
    assert "a-1" + "-" + "2" == "a-1-2";
    StripRendered("a", "1");
    assert "a" + "-" + "1" == "a-1";
  }

  /** Stripping twice changes nothing more exactly when the first strip leaves no position. */
  lemma StripTwiceIff(s: string)
    ensures StripPosition(StripPosition(s)) == StripPosition(s) <==>
            forall k :: !PositionSuffixAt(StripPosition(s), k)
  {
    var r := StripPosition(s);
    StripPositionMeaning(r);
    if k :| PositionSuffixAt(r, k) {
      assert |StripPosition(r)| == k < |r|;
    }
  }

  /** `", "` does not occur in `w + t` when it does not occur in `w`, `t` has no comma and
      does not start with a space. */
  lemma NoCommaSpace(w: string, t: string)
    requires forall j :: !OccursAt(w, ", ", j)
    requires ',' !in t && (t == [] || t[0] != ' ')
    ensures forall j :: !OccursAt(w + t, ", ", j)
  {
    var s := w + t;
    forall j ensures !OccursAt(s, ", ", j) {
      if 0 <= j && j + 2 <= |s| {
        assert s[j..j + 2] == [s[j], s[j + 1]];
        if j + 2 <= |w| {
          assert s[j..j + 2] == w[j..j + 2];
          assert !OccursAt(w, ", ", j);
        } else if j + 1 == |w| {
          assert s[j + 1] == t[0];
        } else {
          assert s[j] == t[j - |w|];
        }
      }
    }
  }

  /** The line the dependency parser writes for one relation: `rel(w1-p1, w2-p2)`. */
  function RenderLine(rel: string, w1: string, p1: string, w2: string, p2: string): string {
    rel + "(" + w1 + "-" + p1 + ", " + w2 + "-" + p2 + ")"
  }

  /** A token the line format can carry: no `(` and no `", "`. */
  ghost predicate Carriable(w: string) {
    '(' !in w && forall j :: !OccursAt(w, ", ", j)
  }

  /** A line with exactly one `(` splits into the text before it and the text after it. */
  lemma SplitOneParen(rel: string, tokens: string)
    requires '(' !in rel && '(' !in tokens
    ensures Split(rel + "(" + tokens, "(") == [rel, tokens]
  {
    SplitOnce(rel, '(', tokens);
  }

  /** The token part `w1-p1, w2-p2)` of a rendered line loses its `)` and splits in two. */
  lemma SplitRenderedTokens(w1: string, p1: string, w2: string, p2: string)
    requires Carriable(w1) && Carriable(w2) && IsPosition(p1) && IsPosition(p2)
    ensures var t1, t2 := w1 + "-" + p1, w2 + "-" + p2;
            && RStripChar(t1 + ", " + t2 + ")", ')') == t1 + ", " + t2
            && Split(t1 + ", " + t2, ", ") == [t1, t2]
  {
    var t1, t2 := w1 + "-" + p1, w2 + "-" + p2;
    RenderedToken(w1, p1);
    RenderedToken(w2, p2);
    RStripOne(t1 + ", " + t2, ')');
    FirstSeparator(t1, t2);
    SplitAt(t1, ", ", t2);
    SplitNone(t2, ", ");
  }

  /** A rendered token `w-p` holds no `", "` and ends in a digit. */
  lemma RenderedToken(w: string, p: string)
    requires Carriable(w) && IsPosition(p)
    ensures forall j :: !OccursAt(w + "-" + p, ", ", j)
    ensures IsDigit((w + "-" + p)[|w + "-" + p| - 1])
  {
    assert ',' !in "-" + p by {
      assert forall i :: 0 <= i < |p| ==> IsDigit(p[i]);
    }
    NoCommaSpace(w, "-" + p);
    assert w + "-" + p == w + ("-" + p);
  }

  /** Stripping `c` from a string with one `c` appended, whose own last character is not
      `c`, gives the string back. */
  lemma RStripOne(s: string, c: char)
    requires s != [] && s[|s| - 1] != c
    ensures RStripChar(s + [c], c) == s
  {
    assert (s + [c])[..|s|] == s;
  }

  /** No `", "` starts inside `t1` in `t1 + ", " + t2` when `t1` has none and does not end in
      a comma. */
  lemma FirstSeparator(t1: string, t2: string)
    requires forall j :: !OccursAt(t1, ", ", j)
    requires t1 != [] && t1[|t1| - 1] != ','
    ensures forall j :: 0 <= j < |t1| ==> !OccursAt(t1 + ", " + t2, ", ", j)
  {
    var inner := t1 + ", " + t2;
    forall j | 0 <= j < |t1| ensures !OccursAt(inner, ", ", j) {
      if j + 2 <= |t1| {
        assert inner[j..j + 2] == t1[j..j + 2];
        assert !OccursAt(t1, ", ", j);
      } else {
        assert inner[j] == t1[j];
      }
    }
  }

  /** Parsing a rendered line gives back its relation and its two words, exactly when the
      relation head is allowed, and nothing otherwise. */
  lemma ParseRendered(rel: string, w1: string, p1: string, w2: string, p2: string, relSet: seq<string>)
    requires '(' !in rel && Carriable(w1) && Carriable(w2) && IsPosition(p1) && IsPosition(p2)
    ensures ParseLine(RenderLine(rel, w1, p1, w2, p2), relSet) ==
              if RelHead(rel) in relSet then Ok(Some(Triple(rel, w1, w2))) else Ok(None)
  {
    var t1, t2 := w1 + "-" + p1, w2 + "-" + p2;
    var tokens := t1 + ", " + t2 + ")";
    var line := RenderLine(rel, w1, p1, w2, p2);
    assert line == rel + "(" + tokens;
    assert '(' !in tokens by {
      assert forall i :: 0 <= i < |p1| ==> IsDigit(p1[i]);
      assert forall i :: 0 <= i < |p2| ==> IsDigit(p2[i]);
    }
    assert RStrip(line) == line by {
      assert line[|line| - 1] == ')';
    }
    SplitOneParen(rel, tokens);
    SplitRenderedTokens(w1, p1, w2, p2);
    StripRendered(w1, p1);
    StripRendered(w2, p2);
  }
}

/** Grouping file names by topic and pairing the reference groups with the target groups:
    `get_ref`, `get_trg` and `gen_pair`, which `pBE.py` and `clustering.py` both define with
    the same body. A directory listing is a sequence of names; a Python dict, which keeps
    insertion order, is a map together with the order its keys were inserted in. */
module Topics {
  import opened Text

  /** `name.startswith('.')` */
  predicate IsHidden(name: string) {
    |name| > 0 && name[0] == '.'
  }

  /** `[path for path in listing if not path.startswith('.')]`: the listing without its
      hidden names, in listing order. */
  function Visible(listing: seq<string>): (names: seq<string>)
    ensures forall n :: n in names <==> n in listing && !IsHidden(n)
    ensures forall n :: !IsHidden(n) ==> multiset(names)[n] == multiset(listing)[n]
  {
    if listing == [] then []
    else
      var init, last := listing[..|listing| - 1], listing[|listing| - 1];
      assert listing == init + [last];
      Visible(init) + if IsHidden(last) then [] else [last]
  }

  /** `file_name.split('.')[0]`: the topic id, the name up to its first `.`. */
  function TopicOf(name: string): (topic: string)
    ensures topic <= name && '.' !in topic
    ensures |topic| < |name| ==> name[|topic|] == '.'
  {
    FirstField(name, '.')
  }

  /** The names of topic `t`, in the order they are listed. */
  function InTopic(names: seq<string>, t: string): (group: seq<string>)
    ensures forall n :: n in group <==> n in names && TopicOf(n) == t
    ensures forall n :: TopicOf(n) == t ==> multiset(group)[n] == multiset(names)[n]
  {
    if names == [] then []
    else
      var init, last := names[..|names| - 1], names[|names| - 1];
      assert names == init + [last];
      InTopic(init, t) + if TopicOf(last) == t then [last] else []
  }

  /** The topics of `names`, each once, in the order of their first name. */
  function TopicsInOrder(names: seq<string>): (topics: seq<string>)
    ensures forall t :: t in topics <==> t in TopicSet(names)
    ensures forall i, j :: 0 <= i < j < |topics| ==> topics[i] != topics[j]
  {
    if names == [] then []
    else
      var init, last := names[..|names| - 1], names[|names| - 1];
      var topics := TopicsInOrder(init);
      TopicSetSnoc(init, last);
      if TopicOf(last) in topics then topics else topics + [TopicOf(last)]
  }

  /** The topic id of every name, in the order the names are listed. */
  function TopicIds(names: seq<string>): (ids: seq<string>)
    ensures |ids| == |names|
  {
    seq(|names|, i requires 0 <= i < |names| => TopicOf(names[i]))
  }

  /** The position of the first occurrence of `t` in `ids`, or `|ids|` when there is none. */
  function FirstIndex(ids: seq<string>, t: string): (k: nat)
    ensures k <= |ids|
    ensures k < |ids| ==> ids[k] == t
    ensures forall m :: 0 <= m < k ==> ids[m] != t
  {
    if ids == [] then 0
    else
      var init := ids[..|ids| - 1];
      var k := FirstIndex(init, t);
      assert forall m :: 0 <= m < |init| ==> ids[m] == init[m];
      if k < |init| || ids[|ids| - 1] == t then k else |ids|
  }

  /** The topics come in the order of their first names, as dict insertion order keeps them. */
  lemma {:induction false} TopicsFirstAppearance(names: seq<string>)
    ensures var topics, ids := TopicsInOrder(names), TopicIds(names);
            forall i, j :: 0 <= i < j < |topics| ==> FirstIndex(ids, topics[i]) < FirstIndex(ids, topics[j])
  {
    if names != [] {
      var init, last := names[..|names| - 1], names[|names| - 1];
      var ids, x, before := TopicIds(init), TopicOf(last), TopicsInOrder(init);
      TopicsFirstAppearance(init);
      TopicsSnoc(init, last);
      TopicsInOrderMembers(init);
      assert names == init + [last];
      assert TopicIds(names) == ids + [x];
      KeptOrder(ids, x, before);
      if x !in before {
        NewLast(ids, x, before);
        AppendLast(ids + [x], x, before);
      }
    }
  }

  /** Appending an id keeps the order of the first occurrences of the ids already listed. */
  lemma KeptOrder(ids: seq<string>, x: string, before: seq<string>)
    requires forall i, j :: 0 <= i < j < |before| ==> FirstIndex(ids, before[i]) < FirstIndex(ids, before[j])
    requires forall t :: t in before <==> FirstIndex(ids, t) < |ids|
    ensures forall i, j :: 0 <= i < j < |before| ==> FirstIndex(ids + [x], before[i]) < FirstIndex(ids + [x], before[j])
  {
    forall i, j | 0 <= i < j < |before| ensures FirstIndex(ids + [x], before[i]) < FirstIndex(ids + [x], before[j]) {
      assert before[i] in before && before[j] in before;
      FirstIndexSnoc(ids, x, before[i]);
      FirstIndexSnoc(ids, x, before[j]);
    }
  }

  /** An appended id that is new occurs first after every id already listed. */
  lemma NewLast(ids: seq<string>, x: string, before: seq<string>)
    requires forall t :: t in before <==> FirstIndex(ids, t) < |ids|
    requires x !in before
    ensures forall i :: 0 <= i < |before| ==> FirstIndex(ids + [x], before[i]) < FirstIndex(ids + [x], x)
  {
    FirstIndexSnoc(ids, x, x);
    forall i | 0 <= i < |before| ensures FirstIndex(ids + [x], before[i]) < FirstIndex(ids + [x], x) {
      assert before[i] in before;
      FirstIndexSnoc(ids, x, before[i]);
    }
  }

  /** Listing a new topic after the others, which all occur first before it, keeps the order. */
  lemma AppendLast(ids: seq<string>, x: string, before: seq<string>)
    requires forall i, j :: 0 <= i < j < |before| ==> FirstIndex(ids, before[i]) < FirstIndex(ids, before[j])
    requires forall i :: 0 <= i < |before| ==> FirstIndex(ids, before[i]) < FirstIndex(ids, x)
    ensures var topics := before + [x];
            forall i, j :: 0 <= i < j < |topics| ==> FirstIndex(ids, topics[i]) < FirstIndex(ids, topics[j])
  {
    var topics := before + [x];
    forall i, j | 0 <= i < j < |topics| ensures FirstIndex(ids, topics[i]) < FirstIndex(ids, topics[j]) {
      assert topics[i] == before[i];
      if j < |before| {
        assert topics[j] == before[j];
      } else {
        assert topics[j] == x;
      }
    }
  }

  /** The first occurrence of `t` after appending one id. */
  lemma FirstIndexSnoc(ids: seq<string>, x: string, t: string)
    ensures FirstIndex(ids + [x], t) == if FirstIndex(ids, t) < |ids| || x == t then FirstIndex(ids, t) else |ids| + 1
  {
    var all := ids + [x];
    assert all[..|all| - 1] == ids;
  }

  /** A topic is listed exactly when some name has it. */
  lemma TopicsInOrderMembers(names: seq<string>)
    ensures forall t :: t in TopicsInOrder(names) <==> FirstIndex(TopicIds(names), t) < |names|
  {
    var ids := TopicIds(names);
    forall t ensures t in TopicsInOrder(names) <==> FirstIndex(ids, t) < |names| {
      if t in TopicsInOrder(names) {
        var n :| n in names && TopicOf(n) == t;
        var m :| 0 <= m < |names| && names[m] == n;
        assert ids[m] == t;
      }
    }
  }

  /** The topic ids of `names`. */
  ghost function TopicSet(names: seq<string>): set<string> {
    set n | n in names :: TopicOf(n)
  }

  lemma TopicSetSnoc(init: seq<string>, last: string)
    ensures TopicSet(init + [last]) == TopicSet(init) + {TopicOf(last)}
  {
    var all := init + [last];
    assert forall n :: n in all <==> n in init || n == last;
  }

  /** A dict from topic to file names: its keys in insertion order, and the map itself. */
  datatype Groups = Groups(topics: seq<string>, members: map<string, seq<string>>)

  /** `g` is what the grouping loop builds from `names`: one key per topic in order of first
      appearance, holding the names of that topic in listing order. */
  ghost predicate IsGrouping(g: Groups, names: seq<string>) {
    && g.topics == TopicsInOrder(names)
    && (forall t :: t in g.members <==> t in g.topics)
    && (forall t :: t in g.members ==> g.members[t] == InTopic(names, t))
  }

  /** `get_ref` / `get_trg`: the visible names of a directory listing grouped by topic id. */
  method GroupByTopic(listing: seq<string>) returns (g: Groups)
    ensures IsGrouping(g, Visible(listing))
  {
    var names := Visible(listing);
    var topics: seq<string> := [];
    var members: map<string, seq<string>> := map[];
    for i := 0 to |names|
      invariant IsGrouping(Groups(topics, members), names[..i])
    {
      var name := names[i];
      PrefixSnoc(names, i);
      var t := TopicOf(name);
      ghost var before := Groups(topics, members);
      GroupingStep(before, names[..i], name);
      if t in members {
        members := members[t := members[t] + [name]];
      } else {
        members := members[t := [name]];
        topics := topics + [t];
      }
      assert Groups(topics, members) == AddName(before, name);
    }
    assert names[..|names|] == names;
    g := Groups(topics, members);
  }

  /** The prefix one longer is the prefix with the next element appended. */
  lemma PrefixSnoc<T>(s: seq<T>, i: nat)
    requires i < |s|
    ensures s[..i + 1] == s[..i] + [s[i]]
  {
  }

  /** One pass of the grouping loop: the name goes to the end of its topic's list, and a
      new topic goes to the end of the key order. */
  function AddName(g: Groups, name: string): Groups {
    var t := TopicOf(name);
    if t in g.members then Groups(g.topics, g.members[t := g.members[t] + [name]])
    else Groups(g.topics + [t], g.members[t := [name]])
  }

  /** Adding a name to the grouping of `names` gives the grouping of `names` and that name. */
  lemma GroupingStep(g: Groups, names: seq<string>, name: string)
    requires IsGrouping(g, names)
    ensures IsGrouping(AddName(g, name), names + [name])
  {
    KeysStep(g, names, name);
    MembersStep(g, names, name);
  }

  /** The key order and the key set after one more name. */
  lemma KeysStep(g: Groups, names: seq<string>, name: string)
    requires g.topics == TopicsInOrder(names)
    requires forall t :: t in g.members <==> t in g.topics
    ensures AddName(g, name).topics == TopicsInOrder(names + [name])
    ensures forall t :: t in AddName(g, name).members <==> t in AddName(g, name).topics
  {
    TopicsSnoc(names, name);
  }

  /** The group of every key after one more name. */
  lemma MembersStep(g: Groups, names: seq<string>, name: string)
    requires IsGrouping(g, names)
    ensures forall u :: u in AddName(g, name).members ==> AddName(g, name).members[u] == InTopic(names + [name], u)
  {
    var t := TopicOf(name);
    var h := AddName(g, name);
    forall u | u in h.members ensures h.members[u] == InTopic(names + [name], u) {
      InTopicSnoc(names, name, u);
      if u == t && t !in g.members {
        InTopicEmpty(names, t);
      }
    }
  }

  lemma TopicsSnoc(names: seq<string>, name: string)
    ensures TopicsInOrder(names + [name]) ==
              if TopicOf(name) in TopicsInOrder(names) then TopicsInOrder(names) else TopicsInOrder(names) + [TopicOf(name)]
  {
    var all := names + [name];
    assert all[..|all| - 1] == names;
  }

  /** A topic none of the names has gets the empty group. */
  lemma {:induction false} InTopicEmpty(names: seq<string>, t: string)
    requires t !in TopicSet(names)
    ensures InTopic(names, t) == []
  {
    if names != [] {
      var init, last := names[..|names| - 1], names[|names| - 1];
      assert names == init + [last];
      TopicSetSnoc(init, last);
      InTopicEmpty(init, t);
    }
  }

  lemma InTopicSnoc(names: seq<string>, name: string, u: string)
    ensures InTopic(names + [name], u) == InTopic(names, u) + if TopicOf(name) == u then [name] else []
  {
    var all := names + [name];
    assert all[..|all| - 1] == names;
  }

  /** Every visible name lands in exactly one group, that of its own topic, as often as it
      is listed. */
  lemma GroupingPartitions(g: Groups, names: seq<string>, n: string)
    requires IsGrouping(g, names) && n in names
    ensures TopicOf(n) in g.members && n in g.members[TopicOf(n)]
    ensures multiset(g.members[TopicOf(n)])[n] == multiset(names)[n]
    ensures forall t :: t in g.members && n in g.members[t] ==> t == TopicOf(n)
  {
    var i :| 0 <= i < |names| && names[i] == n;
    assert TopicOf(names[i]) in g.topics;
  }

  /** The topics of `topics` that are also keys of `keys`, in order. */
  function Shared(topics: seq<string>, keys: set<string>): (r: seq<string>)
    ensures forall t :: t in r <==> t in topics && t in keys
    ensures |r| <= |topics|
  {
    if topics == [] then []
    else
      var init, last := topics[..|topics| - 1], topics[|topics| - 1];
      assert topics == init + [last];
      Shared(init, keys) + if last in keys then [last] else []
  }

  lemma SharedSnoc(topics: seq<string>, t: string, keys: set<string>)
    ensures Shared(topics + [t], keys) == Shared(topics, keys) + if t in keys then [t] else []
  {
    var all := topics + [t];
    assert all[..|all| - 1] == topics;
  }

  /** One item `gen_pair` yields: a topic, its reference names and its target names. */
  datatype Pair = Pair(topic: string, refs: seq<string>, trgs: seq<string>)

  /** Each key of the dict is one of its topics, and the other way round. */
  ghost predicate Keyed(g: Groups) {
    forall t :: t in g.members <==> t in g.topics
  }

  /** The items yielded for `topics` in turn: each topic that also has target names, with
      both of its name lists. */
  function PairsOf(topics: seq<string>, ref: Groups, trg: Groups): seq<Pair>
    requires forall t :: t in topics ==> t in ref.members
  {
    if topics == [] then []
    else
      var init, t := topics[..|topics| - 1], topics[|topics| - 1];
      PairsOf(init, ref, trg) + if t in trg.members then [Pair(t, ref.members[t], trg.members[t])] else []
  }

  /** `gen_pair`: the reference topics in dict order that also have target files, each with
      both of its name lists. */
  method GenPair(ref: Groups, trg: Groups) returns (pairs: seq<Pair>)
    requires Keyed(ref)
    ensures pairs == PairsOf(ref.topics, ref, trg)
  {
    pairs := [];
    for i := 0 to |ref.topics|
      invariant pairs == PairsOf(ref.topics[..i], ref, trg)
    {
      var topic := ref.topics[i];
      assert ref.topics[..i + 1][..i] == ref.topics[..i];
      if topic in trg.members {
        pairs := pairs + [Pair(topic, ref.members[topic], trg.members[topic])];
      }
    }
    assert ref.topics[..|ref.topics|] == ref.topics;
  }

  /** The `i`-th item yielded is the `i`-th shared topic with its two name lists. */
  lemma {:induction false} PairsOfShared(topics: seq<string>, ref: Groups, trg: Groups)
    requires forall t :: t in topics ==> t in ref.members
    ensures |PairsOf(topics, ref, trg)| == |Shared(topics, trg.members.Keys)|
    ensures forall i :: 0 <= i < |PairsOf(topics, ref, trg)| ==>
              var t := Shared(topics, trg.members.Keys)[i];
              t in ref.members && t in trg.members && PairsOf(topics, ref, trg)[i] == Pair(t, ref.members[t], trg.members[t])
  {
    if topics != [] {
      var init, t := topics[..|topics| - 1], topics[|topics| - 1];
      assert forall u :: u in init ==> u in topics;
      PairsOfShared(init, ref, trg);
      SharedSnoc(init, t, trg.members.Keys);
      assert topics == init + [t];
    }
  }

  /** A topic is paired exactly when it has at least one visible reference name and at
      least one visible target name. */
  lemma PairedIff(ref: Groups, refNames: seq<string>, trg: Groups, trgNames: seq<string>, t: string)
    requires IsGrouping(ref, refNames) && IsGrouping(trg, trgNames)
    ensures t in Shared(ref.topics, trg.members.Keys) <==> t in TopicSet(refNames) && t in TopicSet(trgNames)
  {
  }
}

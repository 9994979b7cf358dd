/** The grouped list the launcher renders: programs gathered under their category heading,
    headings in sorted order, each heading followed by its programs (main.py, `_draw_page` and
    `_next_page`). */
module Grouping {
  import Text
  import Ordering
  import opened Catalog

  /** The heading a category string is shown under: `category.strip().capitalize()`. */
  function Heading(category: string): string {
    Text.Capitalize(Text.Strip(category))
  }

  /** Two categories share a heading exactly when they agree, ignoring surrounding whitespace
      and ASCII letter case. */
  lemma SameHeadingIffSameFolded(a: string, b: string)
    ensures Heading(a) == Heading(b) <==> Text.Lower(Text.Strip(a)) == Text.Lower(Text.Strip(b))
  {
    Text.CapitalizeAgreesIffLowerAgrees(Text.Strip(a), Text.Strip(b));
  }

  /** A program with the heading the grouping loop files it under (its `cat`). */
  datatype Tagged = Tagged(heading: string, program: Program)

  /** The pairs the grouping loop walks through, one per program, in catalog order. */
  function Tag(programs: seq<Program>): (ts: seq<Tagged>)
    ensures |ts| == |programs|
  {
    seq(|programs|, i requires 0 <= i < |programs| => Tagged(Heading(programs[i].category), programs[i]))
  }

  /** The programs of a list of pairs, in order. */
  function Programs(ts: seq<Tagged>): (ps: seq<Program>)
    ensures |ps| == |ts|
  {
    seq(|ts|, i requires 0 <= i < |ts| => ts[i].program)
  }

  /** Tagging keeps the programs and files each under the heading of its own category. */
  lemma TagKeepsPrograms(programs: seq<Program>)
    ensures Programs(Tag(programs)) == programs
    ensures forall t :: t in Tag(programs) ==> t.program in programs && t.heading == Heading(t.program.category)
  {
  }

  /** An element of the flat list: a category heading or a program card. */
  datatype Item = Header(heading: string) | Entry(program: Program)

  /** The `defaultdict(list)` keyed by heading, with its keys in insertion order. */
  datatype Groups = Groups(keys: seq<string>, lists: map<string, seq<Program>>)

  /** The headings that occur in a list of pairs. */
  function Headings(ts: seq<Tagged>): set<string> {
    set t | t in ts :: t.heading
  }

  /** The headings of the categories of a list of programs. */
  function CategoryHeadings(programs: seq<Program>): set<string> {
    set p | p in programs :: Heading(p.category)
  }

  lemma TagHeadings(programs: seq<Program>)
    ensures Headings(Tag(programs)) == CategoryHeadings(programs)
  {
    var ts := Tag(programs);
    forall h | h in Headings(ts) ensures h in CategoryHeadings(programs) {
      var i :| 0 <= i < |ts| && ts[i].heading == h;
      assert programs[i] in programs;
    }
    forall h | h in CategoryHeadings(programs) ensures h in Headings(ts) {
      var i :| 0 <= i < |programs| && Heading(programs[i].category) == h;
      assert ts[i] in ts;
    }
  }

  /** Extending the list by its last pair adds that pair's heading. */
  lemma HeadingsOfLast(ts: seq<Tagged>)
    requires ts != []
    ensures Headings(ts) == Headings(ts[..|ts| - 1]) + {ts[|ts| - 1].heading}
  {
    var init := ts[..|ts| - 1];
    forall h | h in Headings(ts) ensures h in Headings(init) + {ts[|ts| - 1].heading} {
      var i :| 0 <= i < |ts| && ts[i].heading == h;
      if i < |ts| - 1 {
        assert ts[i] == init[i];
      }
    }
    forall h | h in Headings(init) ensures h in Headings(ts) {
      var i :| 0 <= i < |init| && init[i].heading == h;
      assert init[i] == ts[i];
    }
  }

  /** The programs filed under heading `h`, in catalog order. */
  function Members(ts: seq<Tagged>, h: string): (r: seq<Program>)
    ensures forall p :: p in r <==> Tagged(h, p) in ts
  {
    if ts == [] then []
    else
      var last := ts[|ts| - 1];
      Members(ts[..|ts| - 1], h) + (if last.heading == h then [last.program] else [])
  }

  /** One step of the grouping loop: append the program to the list of its heading, creating the
      list the first time the heading is met. */
  function Add(g: Groups, t: Tagged): Groups {
    var h := t.heading;
    if h in g.lists then g.(lists := g.lists[h := g.lists[h] + [t.program]])
    else Groups(g.keys + [h], g.lists[h := [t.program]])
  }

  /** Gathers the programs by heading: one list per heading that occurs, holding that heading's
      programs in catalog order. */
  function Group(ts: seq<Tagged>): (g: Groups)
    ensures g.lists.Keys == Headings(ts)
    ensures Ordering.Elems(g.keys) == Headings(ts)
    ensures forall h :: h in g.lists ==> g.lists[h] == Members(ts, h)
  {
    if ts == [] then Groups([], map[])
    else
      var g := Group(ts[..|ts| - 1]);
      AddCollects(g, ts);
      Add(g, ts[|ts| - 1])
  }

  /** What `Group` promises about all but the last pair survives adding the last one. */
  lemma AddCollects(g: Groups, ts: seq<Tagged>)
    requires ts != []
    requires g.lists.Keys == Headings(ts[..|ts| - 1])
    requires Ordering.Elems(g.keys) == Headings(ts[..|ts| - 1])
    requires forall h :: h in g.lists ==> g.lists[h] == Members(ts[..|ts| - 1], h)
    ensures Add(g, ts[|ts| - 1]).lists.Keys == Headings(ts)
    ensures Ordering.Elems(Add(g, ts[|ts| - 1]).keys) == Headings(ts)
    ensures forall h :: h in Add(g, ts[|ts| - 1]).lists ==> Add(g, ts[|ts| - 1]).lists[h] == Members(ts, h)
  {
    AddKeys(g, ts);
    forall h | h in Add(g, ts[|ts| - 1]).lists
      ensures Add(g, ts[|ts| - 1]).lists[h] == Members(ts, h)
    {
      AddList(g, ts, h);
    }
  }

  lemma AddKeys(g: Groups, ts: seq<Tagged>)
    requires ts != []
    requires g.lists.Keys == Headings(ts[..|ts| - 1])
    requires Ordering.Elems(g.keys) == Headings(ts[..|ts| - 1])
    ensures Add(g, ts[|ts| - 1]).lists.Keys == Headings(ts)
    ensures Ordering.Elems(Add(g, ts[|ts| - 1]).keys) == Headings(ts)
  {
    var hl := ts[|ts| - 1].heading;
    HeadingsOfLast(ts);
    if hl !in g.lists {
      assert Ordering.Elems(g.keys + [hl]) == Ordering.Elems(g.keys) + {hl};
    }
  }

  lemma AddList(g: Groups, ts: seq<Tagged>, h: string)
    requires ts != []
    requires g.lists.Keys == Headings(ts[..|ts| - 1])
    requires forall h :: h in g.lists ==> g.lists[h] == Members(ts[..|ts| - 1], h)
    requires h in Add(g, ts[|ts| - 1]).lists
    ensures Add(g, ts[|ts| - 1]).lists[h] == Members(ts, h)
  {
    var hl := ts[|ts| - 1].heading;
    if h == hl && hl !in g.lists {
      MembersOfAbsent(ts[..|ts| - 1], h);
    }
  }

  lemma MembersOfAbsent(ts: seq<Tagged>, h: string)
    requires h !in Headings(ts)
    ensures Members(ts, h) == []
  {
  }

  /** A card per program, in order. */
  function Entries(programs: seq<Program>): (r: seq<Item>)
    ensures |r| == |programs|
  {
    if programs == [] then [] else [Entry(programs[0])] + Entries(programs[1..])
  }

  /** The two nested loops that build the flat list from the groups, for the given key order. */
  function Layout(keys: seq<string>, g: Groups): seq<Item>
    requires forall h :: h in keys ==> h in g.lists
  {
    if keys == [] then []
    else [Header(keys[0])] + Entries(g.lists[keys[0]]) + Layout(keys[1..], g)
  }

  /** The flat list the launcher pages through. */
  function Flatten(programs: seq<Program>): seq<Item> {
    var g := Group(Tag(programs));
    var keys := Ordering.Sort(g.keys);
    assert forall h :: h in keys ==> h in Ordering.Elems(keys);
    Layout(keys, g)
  }

  /** Reference layout: for each heading of `headings` in turn, the heading and then the programs
      filed under it in catalog order. */
  function Blocks(headings: seq<string>, ts: seq<Tagged>): seq<Item> {
    if headings == [] then []
    else [Header(headings[0])] + Entries(Members(ts, headings[0])) + Blocks(headings[1..], ts)
  }

  /** The labels of the headers, in list order. */
  function Labels(items: seq<Item>): seq<string> {
    if items == [] then []
    else (if items[0].Header? then [items[0].heading] else []) + Labels(items[1..])
  }

  /** The programs of the cards, in list order. */
  function Cards(items: seq<Item>): seq<Program> {
    if items == [] then []
    else (if items[0].Entry? then [items[0].program] else []) + Cards(items[1..])
  }

  /** Programs filed under a heading of `hs`, in catalog order. */
  function MembersIn(ts: seq<Tagged>, hs: set<string>): seq<Program> {
    if ts == [] then []
    else
      var last := ts[|ts| - 1];
      MembersIn(ts[..|ts| - 1], hs) + (if last.heading in hs then [last.program] else [])
  }

  lemma LabelsAppend(a: seq<Item>, b: seq<Item>)
    ensures Labels(a + b) == Labels(a) + Labels(b)
    ensures Cards(a + b) == Cards(a) + Cards(b)
  {
    OnlyLabelsAppend(a, b);
    OnlyCardsAppend(a, b);
  }

  lemma {:induction false} OnlyLabelsAppend(a: seq<Item>, b: seq<Item>)
    ensures Labels(a + b) == Labels(a) + Labels(b)
    decreases |a|
  {
    if a == [] {
      assert a + b == b;
    } else {
      var x := if a[0].Header? then [a[0].heading] else [];
      OnlyLabelsAppend(a[1..], b);
      assert (a + b)[1..] == a[1..] + b;
      assert Labels(a + b) == x + (Labels(a[1..]) + Labels(b));
      assert x + (Labels(a[1..]) + Labels(b)) == (x + Labels(a[1..])) + Labels(b);
    }
  }

  lemma {:induction false} OnlyCardsAppend(a: seq<Item>, b: seq<Item>)
    ensures Cards(a + b) == Cards(a) + Cards(b)
    decreases |a|
  {
    if a == [] {
      assert a + b == b;
    } else {
      var x := if a[0].Entry? then [a[0].program] else [];
      OnlyCardsAppend(a[1..], b);
      assert (a + b)[1..] == a[1..] + b;
      assert Cards(a + b) == x + (Cards(a[1..]) + Cards(b));
      assert x + (Cards(a[1..]) + Cards(b)) == (x + Cards(a[1..])) + Cards(b);
    }
  }

  /** Every item is either a header or a card. */
  lemma {:induction false} LabelsAndCardsPartition(items: seq<Item>)
    ensures |items| == |Labels(items)| + |Cards(items)|
    decreases |items|
  {
    if items != [] {
      LabelsAndCardsPartition(items[1..]);
    }
  }

  lemma {:induction false} EntriesHaveNoLabels(programs: seq<Program>)
    ensures Labels(Entries(programs)) == []
    ensures Cards(Entries(programs)) == programs
    decreases |programs|
  {
    if programs != [] {
      EntriesHaveNoLabels(programs[1..]);
      assert Entries(programs)[1..] == Entries(programs[1..]);
    }
  }

  /** Laying out the dictionary built by `Group` gives the reference layout. */
  lemma {:induction false} LayoutIsBlocks(keys: seq<string>, ts: seq<Tagged>)
    requires forall h :: h in keys ==> h in Group(ts).lists
    ensures Layout(keys, Group(ts)) == Blocks(keys, ts)
    decreases |keys|
  {
    if keys != [] {
      LayoutIsBlocks(keys[1..], ts);
    }
  }

  /** Whatever way the headings are put in increasing order, the flat list is the reference
      layout over them: a header per heading in sorted order, each followed by its programs in
      catalog order. */
  lemma FlattenIsBlocks(programs: seq<Program>, headings: seq<string>)
    requires Ordering.StrictlySorted(headings)
    requires Ordering.Elems(headings) == CategoryHeadings(programs)
    ensures Flatten(programs) == Blocks(headings, Tag(programs))
  {
    var ts := Tag(programs);
    TagHeadings(programs);
    Ordering.SortedIsUnique(Ordering.Sort(Group(ts).keys), headings);
    assert forall h :: h in headings ==> h in Ordering.Elems(headings);
    LayoutIsBlocks(headings, ts);
  }

  /** The reference layout's headers are exactly the headings it is given, in that order. */
  lemma {:induction false} BlocksLabels(headings: seq<string>, ts: seq<Tagged>)
    ensures Labels(Blocks(headings, ts)) == headings
    decreases |headings|
  {
    if headings != [] {
      var h := headings[0];
      BlocksLabels(headings[1..], ts);
      EntriesHaveNoLabels(Members(ts, h));
      LabelsAppend([Header(h)], Entries(Members(ts, h)));
      LabelsAppend([Header(h)] + Entries(Members(ts, h)), Blocks(headings[1..], ts));
    }
  }

  /** Programs of one heading and programs of other headings together make up the programs of
      both. */
  lemma {:induction false} MembersInSplit(ts: seq<Tagged>, h: string, hs: set<string>)
    requires h !in hs
    ensures multiset(MembersIn(ts, hs + {h})) == multiset(Members(ts, h)) + multiset(MembersIn(ts, hs))
    decreases |ts|
  {
    if ts != [] {
      var init := ts[..|ts| - 1];
      var last := ts[|ts| - 1];
      MembersInSplit(init, h, hs);
      var both := if last.heading in hs + {h} then [last.program] else [];
      var one := if last.heading == h then [last.program] else [];
      var others := if last.heading in hs then [last.program] else [];
      assert multiset(both) == multiset(one) + multiset(others);
      assert MembersIn(ts, hs + {h}) == MembersIn(init, hs + {h}) + both;
      assert Members(ts, h) == Members(init, h) + one;
      assert MembersIn(ts, hs) == MembersIn(init, hs) + others;
      Regroup(multiset(MembersIn(init, hs + {h})), multiset(Members(init, h)), multiset(MembersIn(init, hs)),
              multiset(both), multiset(one), multiset(others));
    }
  }

  lemma Regroup(a: multiset<Program>, b: multiset<Program>, c: multiset<Program>,
                x: multiset<Program>, y: multiset<Program>, z: multiset<Program>)
    requires a == b + c && x == y + z
    ensures a + x == (b + y) + (c + z)
  {
  }

  lemma {:induction false} MembersInEverything(ts: seq<Tagged>, hs: set<string>)
    requires Headings(ts) <= hs
    ensures MembersIn(ts, hs) == Programs(ts)
    decreases |ts|
  {
    if ts != [] {
      var init := ts[..|ts| - 1];
      HeadingsOfLast(ts);
      MembersInEverything(init, hs);
      assert Programs(ts) == Programs(init) + [ts[|ts| - 1].program];
    }
  }

  /** Over distinct headings, the reference layout carries each program of those headings once. */
  lemma {:induction false} BlocksCards(headings: seq<string>, ts: seq<Tagged>)
    requires Ordering.StrictlySorted(headings)
    ensures multiset(Cards(Blocks(headings, ts))) == multiset(MembersIn(ts, Ordering.Elems(headings)))
    decreases |headings|
  {
    if headings == [] {
      Ordering.ElemsEmpty(headings);
      MembersInNothing(ts);
    } else {
      var h := headings[0];
      var rest := headings[1..];
      BlocksCards(rest, ts);
      BlocksCardsUnfold(headings, ts);
      FirstHeadingIsNew(headings);
      MembersInSplit(ts, h, Ordering.Elems(rest));
    }
  }

  lemma BlocksCardsUnfold(headings: seq<string>, ts: seq<Tagged>)
    requires headings != []
    ensures Cards(Blocks(headings, ts)) == Members(ts, headings[0]) + Cards(Blocks(headings[1..], ts))
  {
    var h := headings[0];
    var e := Entries(Members(ts, h));
    var b := Blocks(headings[1..], ts);
    assert Blocks(headings, ts) == [Header(h)] + (e + b);
    CardsSkipHeader(h, e + b);
    LabelsAppend(e, b);
    EntriesHaveNoLabels(Members(ts, h));
  }

  lemma CardsSkipHeader(h: string, items: seq<Item>)
    ensures Cards([Header(h)] + items) == Cards(items)
  {
    assert ([Header(h)] + items)[1..] == items;
  }

  lemma FirstHeadingIsNew(headings: seq<string>)
    requires headings != [] && Ordering.StrictlySorted(headings)
    ensures headings[0] !in Ordering.Elems(headings[1..])
    ensures Ordering.Elems(headings) == Ordering.Elems(headings[1..]) + {headings[0]}
  {
    Ordering.BelowIrreflexive(headings[0]);
    assert headings == [headings[0]] + headings[1..];
  }

  lemma {:induction false} MembersInNothing(ts: seq<Tagged>)
    ensures MembersIn(ts, {}) == []
    decreases |ts|
  {
    if ts != [] {
      MembersInNothing(ts[..|ts| - 1]);
    }
  }

  /** The shape of the flat list: the headers are the distinct headings of the programs in
      increasing order, every program appears on exactly one card, and so the list is as long as
      the number of headings plus the number of programs. */
  lemma FlattenShape(programs: seq<Program>)
    ensures Ordering.StrictlySorted(Labels(Flatten(programs)))
    ensures Ordering.Elems(Labels(Flatten(programs))) == CategoryHeadings(programs)
    ensures multiset(Cards(Flatten(programs))) == multiset(programs)
    ensures |Flatten(programs)| == |CategoryHeadings(programs)| + |programs|
  {
    var ts := Tag(programs);
    var headings := Ordering.Sort(Group(ts).keys);
    TagHeadings(programs);
    TagKeepsPrograms(programs);
    FlattenIsBlocks(programs, headings);
    BlocksLabels(headings, ts);
    BlocksCards(headings, ts);
    MembersInEverything(ts, Headings(ts));
    Ordering.SortedCardinality(headings);
    LabelsAndCardsPartition(Flatten(programs));
    assert |Cards(Flatten(programs))| == |multiset(Cards(Flatten(programs)))| == |multiset(programs)|;
  }

  /** A list drawn from the catalog never flattens to more items than the catalog does. */
  lemma FlattenMonotone(shown: seq<Program>, all: seq<Program>)
    requires |shown| <= |all|
    requires forall p :: p in shown ==> p in all
    ensures |Flatten(shown)| <= |Flatten(all)|
  {
    FlattenShape(shown);
    FlattenShape(all);
    HeadingsSubset(shown, all);
  }

  lemma HeadingsSubset(shown: seq<Program>, all: seq<Program>)
    requires forall p :: p in shown ==> p in all
    ensures |CategoryHeadings(shown)| <= |CategoryHeadings(all)|
  {
    assert CategoryHeadings(shown) <= CategoryHeadings(all);
    SubsetCardinality(CategoryHeadings(shown), CategoryHeadings(all));
  }

  lemma {:induction false} SubsetCardinality(a: set<string>, b: set<string>)
    requires a <= b
    ensures |a| <= |b|
    decreases |a|
  {
    if a != {} {
      var x :| x in a;
      SubsetCardinality(a - {x}, b - {x});
    }
  }
}

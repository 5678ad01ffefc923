/** What layouts promise: a written tree of splits reads back as the same tree, and activating a channel selects exactly one tab, once and for all. */
module LayoutLaws {
  import opened Wrappers
  import opened WindowLayout

  // ----- writing and reading back

  /** The descriptor that shows the same split tree. */
  function Describe(node: Node): Descriptor {
    match node
    case Split(channel, moderationMode, filters, flexH, flexV) =>
      SplitNode(TypeName(channel), if channel.Twitch? || channel.Misc? then channel.name else "", -1,
                moderationMode, filters, flexH, flexV)
    case Container(vertical, children, flexH, flexV) =>
      ContainerNode(flexH, flexV, vertical, DescribeAll(children))
  }

  function DescribeAll(nodes: seq<Node>): (r: seq<Descriptor>)
    ensures |r| == |nodes|
  {
    if nodes == [] then [] else DescribeAll(nodes[..|nodes| - 1]) + [Describe(nodes[|nodes| - 1])]
  }

  /** The descriptor of a node has the node's own fields, and as items the descriptors of its children in their order. */
  lemma DescribeMeans(node: Node)
    ensures var d := Describe(node);
            match node
            case Split(channel, moderationMode, filters, flexH, flexV) =>
              && d.SplitNode? && d.moderationMode == moderationMode && d.filters == filters && d.flexH == flexH && d.flexV == flexV
              && ChannelOf(d) == channel && d.server == -1
            case Container(vertical, children, flexH, flexV) =>
              && d.ContainerNode? && d.vertical == vertical && d.flexH == flexH && d.flexV == flexV
              && |d.items| == |children| && forall i :: 0 <= i < |children| ==> d.items[i] == Describe(children[i])
  {
    if node.Container? {
      forall i: nat | i < |node.children| ensures DescribeAll(node.children)[i] == Describe(node.children[i]) {
        DescribeAllAt(node.children, i);
      }
    }
  }

  lemma {:induction false} DescribeAllAt(nodes: seq<Node>, i: nat)
    requires i < |nodes|
    ensures DescribeAll(nodes)[i] == Describe(nodes[i])
  {
    if i < |nodes| - 1 {
      DescribeAllAt(nodes[..|nodes| - 1], i);
    }
  }

  lemma ChannelReadsBack(channel: Channel)
    ensures var data := Object(ChannelFields(channel));
            && ToText(Value(data, TypeKey)) == TypeName(channel)
            && Value(data, ChannelKey) == Undefined && Value(data, ServerKey) == Undefined
            && ToText(Value(data, NameKey)) == if channel.Twitch? || channel.Misc? then channel.name else ""
  {
    hide ChannelFields, Lookup;
    FieldsOfChannel(channel, TypeKey);
    FieldsOfChannel(channel, NameKey);
    FieldsOfChannel(channel, ChannelKey);
    FieldsOfChannel(channel, ServerKey);
  }

  /** The value stored under a key that is written last, or before the last. */
  lemma FieldOf(node: Node, key: Key)
    ensures Value(Object(EncodeNode(node)), key) ==
            if key == FlexVKey then Number(node.flexV) else if key == FlexHKey then Number(node.flexH)
            else Lookup(NodeFields(node), key)
  {
    hide Insert, Lookup, NodeFields;
    LookupInsert(NodeFields(node), FlexHKey, Number(node.flexH), key);
    LookupInsert(Insert(NodeFields(node), FlexHKey, Number(node.flexH)), FlexVKey, Number(node.flexV), key);
  }

  lemma SplitField(node: Node, key: Key)
    requires node.Split?
    ensures Lookup(NodeFields(node), key) ==
            match key
            case TypeKey => Text("split")
            case ModerationModeKey => Bool(node.moderationMode)
            case DataKey => Object(ChannelFields(node.channel))
            case FiltersKey => EncodeFilters(node.filters)
            case _ => Undefined
  {
    hide Insert, Lookup, ChannelFields, EncodeFilters;
    var a := Insert([], TypeKey, Text("split"));
    var b := Insert(a, ModerationModeKey, Bool(node.moderationMode));
    var c := Insert(b, DataKey, Object(ChannelFields(node.channel)));
    LookupNothing(key);
    LookupInsert([], TypeKey, Text("split"), key);
    LookupInsert(a, ModerationModeKey, Bool(node.moderationMode), key);
    LookupInsert(b, DataKey, Object(ChannelFields(node.channel)), key);
    LookupInsert(c, FiltersKey, EncodeFilters(node.filters), key);
  }

  lemma ContainerField(node: Node, key: Key)
    requires node.Container?
    ensures Lookup(NodeFields(node), key) ==
            match key
            case TypeKey => Text(if node.vertical then "vertical" else "horizontal")
            case ItemsKey => Array(EncodeNodes(node.children))
            case _ => Undefined
  {
    hide Insert, Lookup, EncodeNodes;
    var kind := Text(if !node.vertical then "horizontal" else "vertical");
    LookupNothing(key);
    LookupInsert([], TypeKey, kind, key);
    LookupInsert(Insert([], TypeKey, kind), ItemsKey, Array(EncodeNodes(node.children)), key);
  }

  lemma FieldsOf(node: Node, key: Key)
    ensures Value(Object(EncodeNode(node)), key) ==
            match key
            case TypeKey => Text(if node.Split? then "split" else if node.vertical then "vertical" else "horizontal")
            case FlexHKey => Number(node.flexH)
            case FlexVKey => Number(node.flexV)
            case ModerationModeKey => if node.Split? then Bool(node.moderationMode) else Undefined
            case DataKey => if node.Split? then Object(ChannelFields(node.channel)) else Undefined
            case FiltersKey => if node.Split? then EncodeFilters(node.filters) else Undefined
            case ItemsKey => if node.Container? then Array(EncodeNodes(node.children)) else Undefined
            case _ => Undefined
  {
    hide Value, EncodeNode, NodeFields, EncodeNodes, ChannelFields, EncodeFilters, Lookup;
    FieldOf(node, key);
    if node.Split? {
      SplitField(node, key);
    } else {
      ContainerField(node, key);
    }
  }

  lemma FiltersReadBack(filters: seq<Filter>)
    ensures LoadFilters(EncodeFilters(filters)) == filters
  {
  }

  lemma SplitReadsBack(node: Node)
    requires node.Split?
    ensures LoadSplit(Object(EncodeNode(node))) == Describe(node)
  {
    hide Value, EncodeNode, ChannelFields, TypeName, EncodeFilters, LoadFilters;
    FieldsOf(node, DataKey);
    FieldsOf(node, ModerationModeKey);
    FieldsOf(node, FiltersKey);
    FieldsOf(node, FlexHKey);
    FieldsOf(node, FlexVKey);
    ChannelReadsBack(node.channel);
    FiltersReadBack(node.filters);
  }

  lemma {:induction false} EncodeNodesAt(nodes: seq<Node>, i: nat)
    requires i < |nodes|
    ensures EncodeNodes(nodes)[i] == Object(EncodeNode(nodes[i]))
  {
    if i < |nodes| - 1 {
      EncodeNodesAt(nodes[..|nodes| - 1], i);
    }
  }

  /** What a channel is called in a layout. */
  predicate IsTypeOf(text: Json, channel: Channel) {
    match channel
    case Twitch(_) => text == Text("twitch")
    case Automod => text == Text("automod")
    case Mentions => text == Text("mentions")
    case Watching => text == Text("watching")
    case Whispers => text == Text("whispers")
    case Live => text == Text("live")
    case Misc(_) => text == Text("misc")
    case Other => text == Undefined
  }

  /** Everything that is written for a node, key by key, with its filters and children in their order. */
  lemma WrittenFields(node: Node, key: Key)
    ensures var v := Value(Object(EncodeNode(node)), key);
            match key
            case TypeKey => v == Text(if node.Split? then "split" else if node.vertical then "vertical" else "horizontal")
            case FlexHKey => v == Number(node.flexH)
            case FlexVKey => v == Number(node.flexV)
            case ModerationModeKey => v == if node.Split? then Bool(node.moderationMode) else Undefined
            case DataKey =>
              if node.Container? then v == Undefined
              else
                && IsTypeOf(Value(v, TypeKey), node.channel)
                && Value(v, NameKey) == (if node.channel.Twitch? || node.channel.Misc? then Text(node.channel.name) else Undefined)
                && forall k: Key :: k != TypeKey && k != NameKey ==> Value(v, k) == Undefined
            case FiltersKey =>
              if node.Container? then v == Undefined
              else v.Array? && |v.items| == |node.filters| && forall i :: 0 <= i < |v.items| ==> v.items[i] == Text(node.filters[i])
            case ItemsKey =>
              if node.Split? then v == Undefined
              else v.Array? && |v.items| == |node.children|
                   && forall i :: 0 <= i < |v.items| ==> v.items[i] == Object(EncodeNode(node.children[i]))
            case _ => v == Undefined
  {
    hide EncodeNode, ChannelFields, Lookup, EncodeNodes;
    FieldsOf(node, key);
    if node.Split? {
      forall k: Key ensures Lookup(ChannelFields(node.channel), k) == ChannelField(node.channel, k) {
        FieldsOfChannel(node.channel, k);
      }
    } else {
      forall i: nat | i < |node.children| ensures EncodeNodes(node.children)[i] == Object(EncodeNode(node.children[i])) {
        EncodeNodesAt(node.children, i);
      }
    }
  }

  /** What is not there is read as a default. */
  lemma MissingFields()
    ensures LoadSplit(Object([])) == SplitNode("", "", -1, false, [], 1.0, 1.0)
    ensures LoadContainer(Object([])) == ContainerNode(1.0, 1.0, false, [])
    ensures LoadRoot(Object([])) == None
  {
  }

  /** The key that older layouts use for the channel's name goes before the newer one. */
  lemma OldName(root: Json, name: string)
    requires Value(Value(root, DataKey), ChannelKey) == Text(name)
    ensures LoadSplit(root).channelName == name
  {
  }

  lemma NodeIsSplit(node: Node)
    ensures Value(Object(EncodeNode(node)), TypeKey) == Text("split") <==> node.Split?
  {
    hide Value, EncodeNode;
    FieldsOf(node, TypeKey);
    assert |"split"| == 5 && |"vertical"| == 8 && |"horizontal"| == 10;
  }

  lemma NoItems(list: Json)
    requires list.Array?
    ensures LoadItems(list, 0) == DescribeAll([])
  {
  }

  lemma ItemLoaded(list: Json, n: nat)
    requires list.Array? && 0 < n <= |list.items|
    ensures var item := list.items[n - 1];
            LoadItems(list, n) ==
            LoadItems(list, n - 1) + [if Value(item, TypeKey) == Text("split") then LoadSplit(item) else LoadContainer(item)]
  {
    hide LoadSplit, LoadContainer, Value;
  }

  lemma DescribeSnoc(nodes: seq<Node>, n: nat)
    requires 0 < n <= |nodes|
    ensures DescribeAll(nodes[..n]) == DescribeAll(nodes[..n - 1]) + [Describe(nodes[n - 1])]
  {
    hide Describe;
    assert nodes[..n][..n - 1] == nodes[..n - 1];
  }

  ghost predicate ReadsBack(node: Node) {
    if node.Split? then LoadSplit(Object(EncodeNode(node))) == Describe(node)
    else LoadContainer(Object(EncodeNode(node))) == Describe(node)
  }

  /** One node of an array, loaded by its kind. */
  lemma ItemReadsBack(children: seq<Node>, i: nat)
    requires i < |children| && ReadsBack(children[i])
    ensures var item := EncodeNodes(children)[i];
            (if Value(item, TypeKey) == Text("split") then LoadSplit(item) else LoadContainer(item)) == Describe(children[i])
  {
    hide EncodeNode, EncodeNodes, LoadSplit, LoadContainer, Describe, Value;
    EncodeNodesAt(children, i);
    NodeIsSplit(children[i]);
  }

  lemma {:induction false} ItemsReadBack(children: seq<Node>, n: nat)
    requires n <= |children| && forall i :: 0 <= i < n ==> ReadsBack(children[i])
    ensures LoadItems(Array(EncodeNodes(children)), n) == DescribeAll(children[..n])
    decreases n
  {
    hide EncodeNode, EncodeNodes, LoadSplit, LoadContainer, LoadItems, Describe, DescribeAll, Value, ReadsBack;
    if n != 0 {
      ItemLoaded(Array(EncodeNodes(children)), n);
      DescribeSnoc(children, n);
      ItemsReadBack(children, n - 1);
      ItemReadsBack(children, n - 1);
    } else {
      NoItems(Array(EncodeNodes(children)));
    }
  }

  lemma ContainerFields(node: Node)
    requires node.Container?
    requires LoadItems(Array(EncodeNodes(node.children)), |node.children|) == DescribeAll(node.children)
    ensures LoadContainer(Object(EncodeNode(node))) == Describe(node)
  {
    hide Value, EncodeNode, EncodeNodes, LoadItems, DescribeAll;
    FieldsOf(node, FlexHKey);
    FieldsOf(node, FlexVKey);
    FieldsOf(node, TypeKey);
    FieldsOf(node, ItemsKey);
    assert |"vertical"| == 8 && |"horizontal"| == 10;
  }

  /** Loading an encoded node gives its descriptor: shape, orientation, flex, channel, moderation mode and filters. */
  lemma {:induction false} NodeReadsBack(node: Node)
    ensures if node.Split? then LoadSplit(Object(EncodeNode(node))) == Describe(node)
            else LoadContainer(Object(EncodeNode(node))) == Describe(node)
  {
    hide EncodeNode, EncodeNodes, LoadSplit, LoadContainer, LoadItems, Describe;
    if node.Split? {
      SplitReadsBack(node);
    } else {
      forall i | 0 <= i < |node.children| ensures ReadsBack(node.children[i]) {
        NodeReadsBack(node.children[i]);
      }
      ItemsReadBack(node.children, |node.children|);
      assert node.children[..|node.children|] == node.children;
      ContainerFields(node);
    }
  }

  /** The root of a tab reads back, and every split of it still names its channel. */
  lemma RootReadsBack(node: Node)
    ensures LoadRoot(Object(EncodeNode(node))) == Some(Describe(node))
  {
    hide Value, EncodeNode, LoadSplit, LoadContainer, Describe;
    FieldsOf(node, TypeKey);
    NodeReadsBack(node);
    assert |"split"| == 5 && |"vertical"| == 8 && |"horizontal"| == 10;
  }

  lemma ChannelSurvives(node: Node)
    requires node.Split?
    ensures ChannelOf(Describe(node)) == node.channel
  {
  }

  // ----- activating a channel

  /** The splits of a tree, from left to right. */
  function Leaves(d: Descriptor): seq<Descriptor> {
    match d
    case SplitNode(_, _, _, _, _, _, _) => [d]
    case ContainerNode(_, _, _, items) => LeavesOf(items)
  }

  function LeavesOf(items: seq<Descriptor>): seq<Descriptor> {
    if items == [] then [] else Leaves(items[0]) + LeavesOf(items[1..])
  }

  /** A split of the channel. */
  predicate Shows(d: Descriptor, name: string) {
    d.SplitNode? && d.channelName == name
  }

  function FilteredSplits(leaves: seq<Descriptor>, name: string): nat {
    if leaves == [] then 0
    else FilteredSplits(leaves[..|leaves| - 1], name) + if Shows(leaves[|leaves| - 1], name) && |leaves[|leaves| - 1].filters| > 0 then 1 else 0
  }

  lemma {:induction false} FilteredConcat(a: seq<Descriptor>, b: seq<Descriptor>, name: string)
    ensures FilteredSplits(a + b, name) == FilteredSplits(a, name) + FilteredSplits(b, name)
  {
    if b == [] {
      assert a + b == a;
    } else {
      FilteredConcat(a, b[..|b| - 1], name);
      assert (a + b)[..|a + b| - 1] == a + b[..|b| - 1];
    }
  }

  /** The score counts every split twice, and a filtered split of the channel once more. */
  lemma {:induction false} ScoreMeans(d: Descriptor, name: string)
    ensures Score(d, name) == 2 * |Leaves(d)| + FilteredSplits(Leaves(d), name)
    ensures HasChannel(d, name) <==> exists l :: l in Leaves(d) && Shows(l, name)
    decreases d, 0
  {
    match d
    case SplitNode(_, _, _, _, _, _, _) =>
      assert [d][..0] == [];
      assert d in Leaves(d);
    case ContainerNode(_, _, _, items) =>
      ScoreAllMeans(items, name);
  }

  lemma {:induction false} ScoreAllMeans(items: seq<Descriptor>, name: string)
    ensures ScoreAll(items, name) == 2 * |LeavesOf(items)| + FilteredSplits(LeavesOf(items), name)
    ensures AnyHasChannel(items, name) <==> exists l :: l in LeavesOf(items) && Shows(l, name)
    decreases items, 1
  {
    hide Shows, Score, HasChannel, Leaves;
    if items == [] {
      assert FilteredSplits([], name) == 0;
    } else {
      ScoreMeans(items[0], name);
      ScoreAllMeans(items[1..], name);
      FilteredConcat(Leaves(items[0]), LeavesOf(items[1..]), name);
      assert forall l :: l in LeavesOf(items) <==> l in Leaves(items[0]) || l in LeavesOf(items[1..]);
    }
  }

  /** Some split of the tab shows the channel. */
  ghost predicate HasSplitOf(tab: Tab, name: string) {
    tab.root.Some? && exists l :: l in Leaves(tab.root.value) && Shows(l, name)
  }

  /** What choosing the tab costs: two for each of its splits, and one for each filtered split of the channel. */
  function Cost(tab: Tab, name: string): nat {
    if tab.root.None? then 0 else 2 * |Leaves(tab.root.value)| + FilteredSplits(Leaves(tab.root.value), name)
  }

  lemma HoldsMeans(tab: Tab, name: string)
    ensures Holds(tab, name) <==> HasSplitOf(tab, name)
    ensures TabScore(tab, name) == Cost(tab, name)
  {
    if tab.root.Some? {
      ScoreMeans(tab.root.value, name);
    }
  }

  /** The first tab of least cost among those that show the channel. */
  ghost predicate IsBest(tabs: seq<Tab>, name: string, n: nat, b: nat)
    requires n <= |tabs|
  {
    && b < n && HasSplitOf(tabs[b], name)
    && (forall i :: 0 <= i < b && HasSplitOf(tabs[i], name) ==> Cost(tabs[b], name) < Cost(tabs[i], name))
    && (forall i :: b < i < n && HasSplitOf(tabs[i], name) ==> Cost(tabs[b], name) <= Cost(tabs[i], name))
  }

  lemma {:induction false} BestIsBest(tabs: seq<Tab>, name: string, n: nat)
    requires n <= |tabs|
    ensures var best := BestOf(tabs, name, n);
            if best.Some? then IsBest(tabs, name, n, best.value)
            else forall i :: 0 <= i < n ==> !HasSplitOf(tabs[i], name)
  {
    hide Holds, TabScore, HasSplitOf, Cost;
    if n != 0 {
      BestIsBest(tabs, name, n - 1);
      HoldsMeans(tabs[n - 1], name);
      var best := BestOf(tabs, name, n - 1);
      if best.Some? {
        HoldsMeans(tabs[best.value], name);
      }
    }
  }

  lemma BestUnique(tabs: seq<Tab>, name: string, b: nat)
    requires IsBest(tabs, name, |tabs|, b)
    ensures BestOf(tabs, name, |tabs|) == Some(b)
  {
    hide HasSplitOf, Cost, BestOf;
    BestIsBest(tabs, name, |tabs|);
  }

  /** A selected tab without title whose only split shows the channel, with nothing else set. */
  predicate IsNewTab(tab: Tab, name: string) {
    tab == Tab("", true, true, Some(SplitNode("twitch", name, -1, false, [], 1.0, 1.0)))
  }

  /** `after` is the main window's tabs with tab `b` alone selected: the best one, or a new one at the end. */
  ghost predicate ActivatedAt(before: seq<Tab>, after: seq<Tab>, name: string, b: nat) {
    && |before| <= |after| && b < |after|
    && (forall i :: 0 <= i < |after| ==> (after[i].selected <==> i == b))
    && (forall i :: 0 <= i < |before| ==> after[i].(selected := before[i].selected) == before[i])
    && (if b < |before| then |after| == |before| && IsBest(before, name, |before|, b)
        else |after| == |before| + 1 && IsNewTab(after[b], name) && forall i :: 0 <= i < |before| ==> !HasSplitOf(before[i], name))
  }

  ghost predicate Activated(before: seq<Tab>, after: seq<Tab>, name: string) {
    exists b :: ActivatedAt(before, after, name, b)
  }

  lemma ActivateSelectsOne(tabs: seq<Tab>, name: string)
    ensures Activated(tabs, ActivateTab(tabs, name), name)
  {
    hide HasSplitOf, Cost, BestOf;
    BestIsBest(tabs, name, |tabs|);
    var best := BestOf(tabs, name, |tabs|);
    var b := if best.Some? then best.value else |tabs|;
    assert ActivatedAt(tabs, ActivateTab(tabs, name), name, b);
  }

  lemma HoldsIgnoresSelection(a: Tab, b: Tab, name: string)
    requires a.root == b.root
    ensures HasSplitOf(a, name) == HasSplitOf(b, name) && Cost(a, name) == Cost(b, name)
  {
  }

  lemma NewTabHolds(name: string)
    ensures HasSplitOf(NewTab(name), name)
  {
    assert NewTab(name).root.value in Leaves(NewTab(name).root.value);
  }

  /** Activating a second time changes nothing. */
  lemma ActivateTabTwice(tabs: seq<Tab>, name: string)
    ensures ActivateTab(ActivateTab(tabs, name), name) == ActivateTab(tabs, name)
  {
    hide HasSplitOf, Cost, NewTab, BestOf;
    var after := ActivateTab(tabs, name);
    BestIsBest(tabs, name, |tabs|);
    NewTabHolds(name);
    forall i | 0 <= i < |tabs|
      ensures HasSplitOf(after[i], name) == HasSplitOf(tabs[i], name) && Cost(after[i], name) == Cost(tabs[i], name)
    {
      HoldsIgnoresSelection(after[i], tabs[i], name);
    }
    var best := BestOf(tabs, name, |tabs|);
    var b := if best.Some? then best.value else |tabs|;
    BestUnique(after, name, b);
    NewTabSelected(name);
  }

  lemma NewTabSelected(name: string)
    ensures NewTab(name).selected
  {
  }

  predicate SameExcept(before: seq<Window>, after: seq<Window>, m: nat) {
    |before| <= |after| && forall i :: 0 <= i < |before| && i != m ==> after[i] == before[i]
  }

  /** The whole layout: for an ordinary name the main window, made if need be, gets exactly one selected tab, no other window changes, and a repetition changes nothing. */
  lemma ActivateLayout(windows: seq<Window>, isTwitch: bool, name: string)
    ensures var after := Activate(windows, isTwitch, name);
            var m := MainIndex(windows);
            var ordinary := isTwitch && (name == "" || (name[0] != '/' && name[0] != '$'));
            && Activate(after, isTwitch, name) == after
            && (!ordinary ==> after == windows)
            && (ordinary ==>
                  && m < |after| && |windows| <= |after| && MainIndex(after) == m
                  && SameExcept(windows, after, m)
                  && (m < |windows| ==> |after| == |windows| && after[m] == windows[m].(tabs := after[m].tabs))
                  && (m == |windows| ==> after[m].type_ == Main && after[m].geometry == Rect(-1, -1, -1, -1) && |after| == m + 1)
                  && Activated(if m < |windows| then windows[m].tabs else [], after[m].tabs, name))
  {
    hide ActivateTab, Activated;
    var m := MainIndex(windows);
    if m < |windows| {
      ActivateSelectsOne(windows[m].tabs, name);
      ActivateTabTwice(windows[m].tabs, name);
      MainIndexIs(Activate(windows, isTwitch, name), m);
    } else {
      ActivateSelectsOne([], name);
      ActivateTabTwice([], name);
      NothingToActivate(name);
      MainIndexIs(Activate(windows, isTwitch, name), m);
    }
  }

  lemma NothingToActivate(name: string)
    ensures ActivateTab([], name) == [NewTab(name)]
  {
  }

  lemma {:induction false} MainIndexIs(windows: seq<Window>, m: nat)
    requires m <= |windows| && (forall i :: 0 <= i < m ==> windows[i].type_ != Main) && (m < |windows| ==> windows[m].type_ == Main)
    ensures MainIndex(windows) == m
  {
  }
}

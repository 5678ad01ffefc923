/**
  Window layouts: how a tree of splits is written to JSON, how it is read back, and how a
  channel is brought to the front of a layout.
 */
module WindowLayout {
  import opened Wrappers

  // ----- JSON

  /** The object keys that layouts use. */
  datatype Key = TypeKey | ModerationModeKey | DataKey | FiltersKey | FlexHKey | FlexVKey | ItemsKey | NameKey | ChannelKey | ServerKey

  datatype Json =
    | Undefined
    | Bool(b: bool)
    | Number(n: real)
    | Text(s: string)
    | Array(items: seq<Json>)
    | Object(fields: seq<(Key, Json)>)

  function Lookup(fields: seq<(Key, Json)>, key: Key): (v: Json)
    ensures v == Undefined || exists i :: 0 <= i < |fields| && fields[i].1 == v
  {
    if fields == [] then Undefined else if fields[0].0 == key then fields[0].1 else Lookup(fields[1..], key)
  }

  function Value(o: Json, key: Key): (v: Json)
    ensures v == Undefined || v < o
  {
    match o
    case Object(fields) => Lookup(fields, key)
    case _ => Undefined
  }

  /** `QJsonObject::insert`: a key that is there already gets a new value. */
  function Insert(fields: seq<(Key, Json)>, key: Key, v: Json): seq<(Key, Json)> {
    if fields == [] then [(key, v)]
    else if fields[0].0 == key then [(key, v)] + fields[1..]
    else [fields[0]] + Insert(fields[1..], key, v)
  }

  lemma LookupCons(key: Key, v: Json, rest: seq<(Key, Json)>, k: Key)
    ensures Lookup([(key, v)] + rest, k) == if k == key then v else Lookup(rest, k)
  {
    assert ([(key, v)] + rest)[1..] == rest;
  }

  lemma {:induction false} LookupInsert(fields: seq<(Key, Json)>, key: Key, v: Json, k: Key)
    ensures Lookup(Insert(fields, key, v), k) == if k == key then v else Lookup(fields, k)
  {
    hide Lookup;
    if fields == [] {
      LookupNothing(k);
      LookupCons(key, v, [], k);
      assert [(key, v)] + [] == [(key, v)];
    } else if fields[0].0 == key {
      LookupCons(key, v, fields[1..], k);
      LookupCons(key, fields[0].1, fields[1..], k);
      assert fields == [(key, fields[0].1)] + fields[1..];
    } else {
      LookupInsert(fields[1..], key, v, k);
      LookupCons(fields[0].0, fields[0].1, Insert(fields[1..], key, v), k);
      LookupCons(fields[0].0, fields[0].1, fields[1..], k);
      assert fields == [(fields[0].0, fields[0].1)] + fields[1..];
    }
  }

  function ToText(v: Json): string {
    match v case Text(s) => s case _ => ""
  }

  function ToBool(v: Json, default: bool): bool {
    match v case Bool(b) => b case _ => default
  }

  function ToReal(v: Json, default: real): real {
    match v case Number(n) => n case _ => default
  }

  function ToInt(v: Json, default: int): int {
    match v case Number(n) => if n.Floor as real == n then n.Floor else default case _ => default
  }

  function ToArray(v: Json): seq<Json> {
    match v case Array(items) => items case _ => []
  }

  // ----- splits as they are shown

  datatype Channel =
    | Twitch(name: string) | Automod | Mentions | Watching | Whispers | Live | Misc(name: string) | Other

  /** A filter, named by the text form of its UUID. */
  type Filter = string

  datatype Node =
    | Split(channel: Channel, moderationMode: bool, filters: seq<Filter>, flexH: real, flexV: real)
    | Container(vertical: bool, children: seq<Node>, flexH: real, flexV: real)

  // ----- splits as they are described in a layout

  datatype Descriptor =
    | SplitNode(type_: string, channelName: string, server: int, moderationMode: bool, filters: seq<Filter>,
                flexH: real, flexV: real)
    | ContainerNode(flexH: real, flexV: real, vertical: bool, items: seq<Descriptor>)

  function TypeName(c: Channel): string {
    match c
    case Twitch(_) => "twitch"
    case Automod => "automod"
    case Mentions => "mentions"
    case Watching => "watching"
    case Whispers => "whispers"
    case Live => "live"
    case Misc(_) => "misc"
    case Other => ""
  }

  /** `decodeChannel`: which channel a descriptor stands for. */
  function ChannelOf(d: Descriptor): Channel
    requires d.SplitNode?
  {
    if d.type_ == "twitch" then Twitch(d.channelName)
    else if d.type_ == "mentions" then Mentions
    else if d.type_ == "watching" then Watching
    else if d.type_ == "whispers" then Whispers
    else if d.type_ == "live" then Live
    else if d.type_ == "automod" then Automod
    else if d.type_ == "misc" then Misc(d.channelName)
    else Other
  }

  // ----- writing

  /** What is written for a channel: its type, and its name if it is one of several of that type. */
  function ChannelField(channel: Channel, key: Key): Json {
    if key == TypeKey && !channel.Other? then Text(TypeName(channel))
    else if key == NameKey && (channel.Twitch? || channel.Misc?) then Text(channel.name)
    else Undefined
  }

  /** The object holds exactly the fields of the channel. */
  lemma FieldsOfChannel(channel: Channel, key: Key)
    ensures Lookup(ChannelFields(channel), key) == ChannelField(channel, key)
  {
    hide Insert, Lookup;
    LookupNothing(key);
    LookupInsert([], TypeKey, Text(TypeName(channel)), key);
    if channel.Twitch? || channel.Misc? {
      LookupInsert(Insert([], TypeKey, Text(TypeName(channel))), NameKey, Text(channel.name), key);
    }
  }

  lemma LookupNothing(key: Key)
    ensures Lookup([], key) == Undefined
  {
  }

  method EncodeChannel(channel: Channel) returns (obj: seq<(Key, Json)>)
    ensures forall key: Key :: Lookup(obj, key) == ChannelField(channel, key)
    ensures obj == ChannelFields(channel)
  {
    hide Insert, Lookup, ChannelField;
    forall key: Key ensures Lookup(ChannelFields(channel), key) == ChannelField(channel, key) {
      FieldsOfChannel(channel, key);
    }
    obj := [];
    match channel {
      case Twitch(name) =>
        obj := Insert(obj, TypeKey, Text("twitch"));
        obj := Insert(obj, NameKey, Text(name));
      case Automod => obj := Insert(obj, TypeKey, Text("automod"));
      case Mentions => obj := Insert(obj, TypeKey, Text("mentions"));
      case Watching => obj := Insert(obj, TypeKey, Text("watching"));
      case Whispers => obj := Insert(obj, TypeKey, Text("whispers"));
      case Live => obj := Insert(obj, TypeKey, Text("live"));
      case Misc(name) =>
        obj := Insert(obj, TypeKey, Text("misc"));
        obj := Insert(obj, NameKey, Text(name));
      case Other =>
    }
  }

  function ChannelFields(channel: Channel): seq<(Key, Json)> {
    match channel
    case Twitch(name) => Insert(Insert([], TypeKey, Text("twitch")), NameKey, Text(name))
    case Misc(name) => Insert(Insert([], TypeKey, Text("misc")), NameKey, Text(name))
    case Other => []
    case _ => Insert([], TypeKey, Text(TypeName(channel)))
  }

  function EncodeNodes(nodes: seq<Node>): (r: seq<Json>)
    ensures |r| == |nodes|
    decreases nodes, 0
  {
    if nodes == [] then [] else EncodeNodes(nodes[..|nodes| - 1]) + [Object(EncodeNode(nodes[|nodes| - 1]))]
  }

  /** What a node writes before its flex factors. */
  function NodeFields(node: Node): seq<(Key, Json)>
    decreases node, 0
  {
    match node
    case Split(channel, moderationMode, filters, _, _) =>
      var o := Insert(Insert([], TypeKey, Text("split")), ModerationModeKey, Bool(moderationMode));
      Insert(Insert(o, DataKey, Object(ChannelFields(channel))), FiltersKey, EncodeFilters(filters))
    case Container(vertical, children, _, _) =>
      Insert(Insert([], TypeKey, Text(if !vertical then "horizontal" else "vertical")), ItemsKey, Array(EncodeNodes(children)))
  }

  function EncodeNode(node: Node): seq<(Key, Json)>
    decreases node, 1
  {
    Insert(Insert(NodeFields(node), FlexHKey, Number(node.flexH)), FlexVKey, Number(node.flexV))
  }

  function EncodeFilters(filters: seq<Filter>): Json {
    Array(seq(|filters|, i requires 0 <= i < |filters| => Text(filters[i])))
  }

  /** The recursive encoder, which fills the object it is given. */
  method EncodeNodeRecursively(node: Node) returns (obj: seq<(Key, Json)>)
    ensures obj == EncodeNode(node)
    decreases node
  {
    hide Insert, ChannelFields;
    obj := [];
    match node {
      case Split(channel, moderationMode, filters, _, _) =>
        obj := Insert(obj, TypeKey, Text("split"));
        obj := Insert(obj, ModerationModeKey, Bool(moderationMode));
        var split := EncodeChannel(channel);
        obj := Insert(obj, DataKey, Object(split));
        var arr: seq<Json> := [];
        for i := 0 to |filters|
          invariant |arr| == i && forall k :: 0 <= k < i ==> arr[k] == Text(filters[k])
        {
          arr := arr + [Text(filters[i])];
        }
        assert Array(arr) == EncodeFilters(filters);
        obj := Insert(obj, FiltersKey, Array(arr));
      case Container(vertical, children, _, _) =>
        obj := Insert(obj, TypeKey, Text(if !vertical then "horizontal" else "vertical"));
        var itemsArr: seq<Json> := [];
        for i := 0 to |children|
          invariant itemsArr == EncodeNodes(children[..i])
        {
          assert children[..i + 1][..i] == children[..i];
          var subObj := EncodeNodeRecursively(children[i]);
          itemsArr := itemsArr + [Object(subObj)];
        }
        assert children[..|children|] == children;
        obj := Insert(obj, ItemsKey, Array(itemsArr));
    }
    obj := Insert(obj, FlexHKey, Number(node.flexH));
    obj := Insert(obj, FlexVKey, Number(node.flexV));
  }

  // ----- reading

  function LoadFilters(v: Json): seq<Filter> {
    var items := ToArray(v);
    seq(|items|, i requires 0 <= i < |items| => ToText(items[i]))
  }

  function LoadSplit(root: Json): Descriptor {
    var data := Value(root, DataKey);
    SplitNode(
      ToText(Value(data, TypeKey)),
      if Value(data, ChannelKey) != Undefined then ToText(Value(data, ChannelKey)) else ToText(Value(data, NameKey)),
      ToInt(Value(data, ServerKey), -1),
      ToBool(Value(root, ModerationModeKey), false),
      LoadFilters(Value(root, FiltersKey)),
      ToReal(Value(root, FlexHKey), 1.0),
      ToReal(Value(root, FlexVKey), 1.0))
  }

  function LoadContainer(root: Json): Descriptor
    decreases root, 1
  {
    ContainerNode(
      ToReal(Value(root, FlexHKey), 1.0),
      ToReal(Value(root, FlexVKey), 1.0),
      ToText(Value(root, TypeKey)) == "vertical",
      if Value(root, ItemsKey).Array? then LoadItems(Value(root, ItemsKey), |Value(root, ItemsKey).items|) else [])
  }

  /** The first `n` items of the array; whatever is not a split is read as a container. */
  function LoadItems(list: Json, n: nat): (r: seq<Descriptor>)
    requires list.Array? && n <= |list.items|
    ensures |r| == n
    decreases list, n
  {
    if n == 0 then []
    else
      var item := list.items[n - 1];
      LoadItems(list, n - 1) + [if Value(item, TypeKey) == Text("split") then LoadSplit(item) else LoadContainer(item)]
  }

  /** `TabDescriptor::loadFromJSON`, as far as the tree of splits goes. */
  function LoadRoot(root: Json): Option<Descriptor> {
    var nodeType := ToText(Value(root, TypeKey));
    if nodeType == "split" then Some(LoadSplit(root))
    else if nodeType == "horizontal" || nodeType == "vertical" then Some(LoadContainer(root))
    else None
  }

  // ----- bringing a channel to the front

  datatype WindowType = Main | Popup | Attached

  datatype Rect = Rect(x: int, y: int, width: int, height: int)

  datatype Tab = Tab(customTitle: string, selected: bool, highlightsEnabled: bool, root: Option<Descriptor>)

  datatype Window = Window(type_: WindowType, geometry: Rect, tabs: seq<Tab>)

  /** Two for every split, and one more for every split of the channel that has filters. */
  function Score(d: Descriptor, name: string): nat {
    match d
    case SplitNode(_, channelName, _, _, filters, _, _) => if channelName == name && filters != [] then 3 else 2
    case ContainerNode(_, _, _, items) => ScoreAll(items, name)
  }

  function ScoreAll(items: seq<Descriptor>, name: string): nat {
    if items == [] then 0 else Score(items[0], name) + ScoreAll(items[1..], name)
  }

  predicate HasChannel(d: Descriptor, name: string) {
    match d
    case SplitNode(_, channelName, _, _, _, _, _) => channelName == name
    case ContainerNode(_, _, _, items) => AnyHasChannel(items, name)
  }

  predicate AnyHasChannel(items: seq<Descriptor>, name: string) {
    items != [] && (HasChannel(items[0], name) || AnyHasChannel(items[1..], name))
  }

  predicate Holds(tab: Tab, name: string) {
    tab.root.Some? && HasChannel(tab.root.value, name)
  }

  function TabScore(tab: Tab, name: string): nat {
    if tab.root.Some? then Score(tab.root.value, name) else 0
  }

  /** The running choice over the first `i` tabs: the first one that holds the channel with a smaller score than all before. */
  function BestOf(tabs: seq<Tab>, name: string, i: nat): (best: Option<nat>)
    requires i <= |tabs|
    ensures best.Some? ==> best.value < i
  {
    if i == 0 then None
    else
      var best := BestOf(tabs, name, i - 1);
      if Holds(tabs[i - 1], name) && (best.None? || TabScore(tabs[i - 1], name) < TabScore(tabs[best.value], name))
      then Some(i - 1) else best
  }

  function NewTab(name: string): Tab {
    Tab("", true, true, Some(SplitNode("twitch", name, -1, false, [], 1.0, 1.0)))
  }

  /** Only names of ordinary channels can be activated. */
  predicate Ordinary(isTwitch: bool, name: string) {
    isTwitch && !(name != "" && (name[0] == '/' || name[0] == '$'))
  }

  function Select(tabs: seq<Tab>, b: int): (r: seq<Tab>)
    ensures |r| == |tabs|
  {
    seq(|tabs|, i requires 0 <= i < |tabs| => tabs[i].(selected := i == b))
  }

  /** The tabs of the main window afterwards. */
  function ActivateTab(tabs: seq<Tab>, name: string): seq<Tab> {
    match BestOf(tabs, name, |tabs|)
    case Some(b) => Select(tabs, b)
    case None => Select(tabs, -1) + [NewTab(name)]
  }

  function MainIndex(windows: seq<Window>): (m: nat)
    ensures m <= |windows|
    ensures forall i :: 0 <= i < m ==> windows[i].type_ != Main
    ensures m < |windows| ==> windows[m].type_ == Main
  {
    if windows == [] || windows[0].type_ == Main then 0 else 1 + MainIndex(windows[1..])
  }

  function Activate(windows: seq<Window>, isTwitch: bool, name: string): seq<Window> {
    var m := MainIndex(windows);
    if !Ordinary(isTwitch, name) then windows
    else if m == |windows| then windows + [Window(Main, Rect(-1, -1, -1, -1), [NewTab(name)])]
    else windows[m := windows[m].(tabs := ActivateTab(windows[m].tabs, name))]
  }

  class Layout {
    var windows: seq<Window>

    method ActivateOrAddChannel(isTwitch: bool, name: string)
      modifies this
      ensures windows == Activate(old(windows), isTwitch, name)
    {
      if !isTwitch || (name != "" && (name[0] == '/' || name[0] == '$')) {
        return;
      }
      var main := MainIndex(windows);
      if main == |windows| {
        windows := windows + [Window(Main, Rect(-1, -1, -1, -1), [NewTab(name)])];
        return;
      }
      var tabs := SelectBest(windows[main].tabs, name);
      windows := windows[main := windows[main].(tabs := tabs)];
    }

    /** The loop over the main window's tabs. */
    static method SelectBest(before: seq<Tab>, name: string) returns (tabs: seq<Tab>)
      ensures tabs == ActivateTab(before, name)
    {
      tabs := before;
      var bestTab: Option<nat>, bestTabScore := None, 0;
      for i := 0 to |tabs|
        invariant |tabs| == |before|
        invariant forall k :: 0 <= k < |before| ==> tabs[k] == if k < i then before[k].(selected := false) else before[k]
        invariant bestTab == BestOf(before, name, i)
        invariant bestTab.Some? ==> bestTabScore == TabScore(before[bestTab.value], name)
      {
        tabs := tabs[i := tabs[i].(selected := false)];
        if tabs[i].root.None? {
          continue;
        }
        var score, hasChannel := Score(tabs[i].root.value, name), HasChannel(tabs[i].root.value, name);
        if hasChannel && (bestTab.None? || score < bestTabScore) {
          bestTab, bestTabScore := Some(i), score;
        }
      }
      if bestTab.Some? {
        tabs := tabs[bestTab.value := tabs[bestTab.value].(selected := true)];
      } else {
        tabs := tabs + [NewTab(name)];
      }
    }
  }
}

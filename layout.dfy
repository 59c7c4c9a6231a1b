/**
 * The telemetry menu of the console's layout (frontend/src/components/Layout.tsx):
 * the hex label of a telemetry id, one menu item per channel, component and
 * telemetry, and the order the menu is sorted in.
 */
module Layout {
  import opened JsString
  import opened SeqLemmas
  import opened TelemetrySchema

  // ---------------------------------------------------------------------------
  // formatU8Hex

  /** `s.slice(-2)`: the last two characters, or all of a shorter string. */
  function LastTwo(s: string): (r: string)
    ensures |s| >= 2 ==> |r| == 2 && r == s[|s| - 2..]
    ensures |s| < 2 ==> r == s
  {
    if |s| >= 2 then s[|s| - 2..] else s
  }

  /** `formatU8Hex`: `"0x"` and the last two digits of the hex text with a
    * `0` in front. */
  function FormatU8Hex(n: nat): (r: string)
    ensures |r| == 4 && r[..2] == "0x"
  {
    NatToHexSpec(n);
    "0x" + LastTwo("0" + NatToHex(n))
  }

  /** The last digit `toString(16)` writes is the lowest nibble. */
  lemma NatToHexLastDigit(n: nat)
    ensures NatToHex(n)[|NatToHex(n)| - 1] == LowerHexDigit(n % 16)
  {
  }

  /** The two nibbles of `n % 256` are the lowest nibbles of `n / 16` and `n`. */
  lemma LowByteNibbles(n: nat)
    ensures (n % 256) / 16 == (n / 16) % 16 && (n % 256) % 16 == n % 16
  {
    var q := n / 256;
    var r := n % 256;
    assert n == 256 * q + r;
    assert n / 16 == 16 * q + r / 16;
    assert n % 16 == r % 16;
  }

  /** The label's two digits for an id below 16: a `0` and the id's digit. */
  lemma FormatSmall(n: nat)
    requires n < 16
    ensures FormatU8Hex(n) == "0x" + HexByte(n % 256)
  {
    var d := LowerHexDigit(n);
    assert NatToHex(n) == [d];
    LastTwoOfShort(d);
    assert n % 256 == n && n / 16 == 0;
    assert HexByte(n % 256) == ['0', d];
    assert LastTwo("0" + NatToHex(n)) == HexByte(n % 256);
  }

  lemma LastTwoOfShort(d: char)
    ensures LastTwo("0" + [d]) == ['0', d]
  {
  }

  lemma LastTwoOfLong(front: string, d: char)
    requires |front| >= 1
    ensures LastTwo("0" + (front + [d])) == [front[|front| - 1], d]
  {
    var s := "0" + (front + [d]);
    assert s[|s| - 2] == front[|front| - 1];
  }

  /** `toString(16)` of an id of two or more digits ends in its lowest nibble. */
  lemma NatToHexSnoc(n: nat)
    requires n >= 16
    ensures NatToHex(n) == NatToHex(n / 16) + [LowerHexDigit(n % 16)]
  {
  }

  /** The label's two digits for a larger id: the last two digits of its hex
    * text, which are the two nibbles of its low byte. */
  lemma FormatLarge(n: nat)
    requires n >= 16
    ensures FormatU8Hex(n) == "0x" + HexByte(n % 256)
  {
    NatToHexSnoc(n);
    LastTwoOfLong(NatToHex(n / 16), LowerHexDigit(n % 16));
    NatToHexLastDigit(n / 16);
    LowByteNibbles(n);
    assert HexByte(n % 256) == [LowerHexDigit((n / 16) % 16), LowerHexDigit(n % 16)];
    assert LastTwo("0" + NatToHex(n)) == HexByte(n % 256);
  }

  /** The label is `0x` and exactly two lower-case hex digits; they encode the
    * id itself when it fits in a byte, and the id modulo 256 otherwise. */
  lemma FormatU8HexSpec(n: nat)
    ensures var r := FormatU8Hex(n);
      && |r| == 4 && r[..2] == "0x"
      && r[2..] == HexByte(n % 256)
      && AllHexDigits(r[2..]) && IsLowerHex(r[2..]) && HexValue(r[2..]) == n % 256
  {
    if n < 16 {
      FormatSmall(n);
    } else {
      FormatLarge(n);
    }
    var r := FormatU8Hex(n);
    assert r[2..] == HexByte(n % 256);
  }

  // ---------------------------------------------------------------------------
  // telemetryListItems

  datatype MenuItem = MenuItem(name: string, telemetryId: nat)

  /** One item per channel for one telemetry, in channel order. */
  function ChannelItems(channels: seq<string>, componentName: string, telemetryName: string, id: nat): (r: seq<MenuItem>)
    ensures |r| == |channels|
  {
    seq(|channels|, h requires 0 <= h < |channels| => MenuItem(StreamName(channels[h], componentName, telemetryName), id))
  }

  /** The items of a component's telemetries, telemetry by telemetry. */
  function TelemetryItems(channels: seq<string>, componentName: string, telemetries: seq<(string, Telemetry)>): seq<MenuItem>
  {
    if telemetries == [] then []
    else
      var (telemetryName, telemetry) := telemetries[|telemetries| - 1];
      TelemetryItems(channels, componentName, telemetries[..|telemetries| - 1]) +
      ChannelItems(channels, componentName, telemetryName, telemetry.id)
  }

  /** The items of all components, component by component: one item per
    * component, telemetry and channel. */
  function MenuItems(channels: seq<string>, components: seq<(string, TelemetryComponent)>): (r: seq<MenuItem>)
    ensures |r| == TelemetryCount(components) * |channels|
  {
    if components == [] then []
    else
      var front := components[..|components| - 1];
      var (componentName, component) := components[|components| - 1];
      TelemetryItemsCount(channels, componentName, component.telemetries);
      Distribute(TelemetryCount(front), |component.telemetries|, |channels|);
      MenuItems(channels, front) + TelemetryItems(channels, componentName, component.telemetries)
  }

  /** The menu of two lists of components is the first list's items followed
    * by the second's. */
  lemma {:induction false} MenuItemsAppend(channels: seq<string>, xs: seq<(string, TelemetryComponent)>,
                                           ys: seq<(string, TelemetryComponent)>)
    ensures MenuItems(channels, xs + ys) == MenuItems(channels, xs) + MenuItems(channels, ys)
    decreases |ys|
  {
    if ys == [] {
      assert xs + ys == xs;
    } else {
      var zs := xs + ys;
      var front := ys[..|ys| - 1];
      var last := TelemetryItems(channels, ys[|ys| - 1].0, ys[|ys| - 1].1.telemetries);
      assert zs[..|zs| - 1] == xs + front && zs[|zs| - 1] == ys[|ys| - 1];
      MenuItemsLast(channels, zs);
      MenuItemsLast(channels, ys);
      MenuItemsAppend(channels, xs, front);
      AppendAssociative(MenuItems(channels, xs), MenuItems(channels, front), last);
    }
  }

  /** The menu ends with the last component's items. */
  lemma MenuItemsLast(channels: seq<string>, components: seq<(string, TelemetryComponent)>)
    requires components != []
    ensures var n := |components|;
      MenuItems(channels, components) ==
      MenuItems(channels, components[..n - 1]) + TelemetryItems(channels, components[n - 1].0, components[n - 1].1.telemetries)
  {
  }

  /** The number of telemetries over all components. */
  function TelemetryCount(components: seq<(string, TelemetryComponent)>): nat
  {
    if components == [] then 0
    else TelemetryCount(components[..|components| - 1]) + |components[|components| - 1].1.telemetries|
  }

  /** The triple loop of `telemetryListItems`, before sorting. */
  method CollectMenuItems(channels: seq<string>, components: seq<(string, TelemetryComponent)>) returns (items: seq<MenuItem>)
    ensures items == MenuItems(channels, components)
  {
    items := [];
    var c := 0;
    while c < |components|
      invariant 0 <= c <= |components|
      invariant items == MenuItems(channels, components[..c])
    {
      var (componentName, componentSchema) := components[c];
      var telemetries := componentSchema.telemetries;
      ghost var beforeComponent := items;
      var t := 0;
      while t < |telemetries|
        invariant 0 <= t <= |telemetries|
        invariant items == beforeComponent + TelemetryItems(channels, componentName, telemetries[..t])
      {
        var (telemetryName, telemetrySchema) := telemetries[t];
        ghost var beforeTelemetry := items;
        ghost var row := ChannelItems(channels, componentName, telemetryName, telemetrySchema.id);
        var h := 0;
        while h < |channels|
          invariant 0 <= h <= |channels|
          invariant items == beforeTelemetry + row[..h]
        {
          var name := channels[h] + "." + componentName + "." + telemetryName;
          var telemetryId := telemetrySchema.id;
          items := items + [MenuItem(name, telemetryId)];
          SnocPrefix(beforeTelemetry, row, h);
          h := h + 1;
        }
        assert row[..h] == row;
        TelemetryItemsSnoc(channels, componentName, telemetries, t);
        AppendAssociative(beforeComponent, TelemetryItems(channels, componentName, telemetries[..t]), row);
        t := t + 1;
      }
      assert telemetries[..t] == telemetries;
      MenuItemsSnoc(channels, components, c);
      c := c + 1;
    }
    assert components[..c] == components;
  }

  /** One more telemetry appends its channel items. */
  lemma TelemetryItemsSnoc(channels: seq<string>, componentName: string, telemetries: seq<(string, Telemetry)>, t: nat)
    requires t < |telemetries|
    ensures TelemetryItems(channels, componentName, telemetries[..t + 1]) ==
      TelemetryItems(channels, componentName, telemetries[..t]) +
      ChannelItems(channels, componentName, telemetries[t].0, telemetries[t].1.id)
  {
    assert telemetries[..t + 1][..t] == telemetries[..t];
  }

  /** One more component appends its telemetries' items. */
  lemma MenuItemsSnoc(channels: seq<string>, components: seq<(string, TelemetryComponent)>, c: nat)
    requires c < |components|
    ensures MenuItems(channels, components[..c + 1]) ==
      MenuItems(channels, components[..c]) + TelemetryItems(channels, components[c].0, components[c].1.telemetries)
  {
    assert components[..c + 1][..c] == components[..c];
  }

  /** A component contributes one item per telemetry and channel. */
  lemma {:induction false} TelemetryItemsCount(channels: seq<string>, componentName: string, telemetries: seq<(string, Telemetry)>)
    ensures |TelemetryItems(channels, componentName, telemetries)| == |telemetries| * |channels|
    decreases |telemetries|
  {
    if telemetries != [] {
      TelemetryItemsCount(channels, componentName, telemetries[..|telemetries| - 1]);
      assert |telemetries| * |channels| == (|telemetries| - 1) * |channels| + |channels|;
    }
  }

  lemma Distribute(a: nat, b: nat, m: nat)
    ensures (a + b) * m == a * m + b * m
  {
  }

  /** The item for channel `h` of telemetry `t` of a component. */
  predicate IsTelemetryItem(item: MenuItem, channels: seq<string>, componentName: string,
                            telemetries: seq<(string, Telemetry)>, t: int, h: int)
  {
    0 <= t < |telemetries| && 0 <= h < |channels| &&
    item == MenuItem(StreamName(channels[h], componentName, telemetries[t].0), telemetries[t].1.id)
  }

  /** A component's items are exactly the stream names of its telemetries on
    * every channel, each with that telemetry's id. */
  lemma {:induction false} TelemetryItemsMembers(channels: seq<string>, componentName: string,
                                                 telemetries: seq<(string, Telemetry)>, item: MenuItem)
    ensures item in TelemetryItems(channels, componentName, telemetries) <==>
      exists t, h :: IsTelemetryItem(item, channels, componentName, telemetries, t, h)
    decreases |telemetries|
  {
    if telemetries != [] {
      var n := |telemetries|;
      var front := telemetries[..n - 1];
      var (telemetryName, telemetry) := telemetries[n - 1];
      var row := ChannelItems(channels, componentName, telemetryName, telemetry.id);
      TelemetryItemsMembers(channels, componentName, front, item);
      if item in TelemetryItems(channels, componentName, telemetries) {
        if item in row {
          var h :| 0 <= h < |row| && row[h] == item;
          assert IsTelemetryItem(item, channels, componentName, telemetries, n - 1, h);
        } else {
          var t, h :| IsTelemetryItem(item, channels, componentName, front, t, h);
          assert front[t] == telemetries[t];
          assert IsTelemetryItem(item, channels, componentName, telemetries, t, h);
        }
      }
      if exists t, h :: IsTelemetryItem(item, channels, componentName, telemetries, t, h) {
        var t, h :| IsTelemetryItem(item, channels, componentName, telemetries, t, h);
        if t == n - 1 {
          assert row[h] == item;
        } else {
          assert front[t] == telemetries[t];
          assert IsTelemetryItem(item, channels, componentName, front, t, h);
        }
      }
    }
  }

  /** The item for channel `h` of telemetry `t` of component `c`. */
  predicate IsMenuItem(item: MenuItem, channels: seq<string>, components: seq<(string, TelemetryComponent)>,
                       c: int, t: int, h: int)
  {
    0 <= c < |components| && IsTelemetryItem(item, channels, components[c].0, components[c].1.telemetries, t, h)
  }

  /** The menu's items are exactly `channel.component.telemetry` over every
    * component, telemetry and channel, each with that telemetry's id. */
  lemma {:induction false} MenuItemsMembers(channels: seq<string>, components: seq<(string, TelemetryComponent)>, item: MenuItem)
    ensures item in MenuItems(channels, components) <==>
      exists c, t, h :: IsMenuItem(item, channels, components, c, t, h)
    decreases |components|
  {
    if components != [] {
      var n := |components|;
      var front := components[..n - 1];
      var last := components[n - 1];
      MenuItemsLast(channels, components);
      MenuItemsMembers(channels, front, item);
      TelemetryItemsMembers(channels, last.0, last.1.telemetries, item);
      if item in MenuItems(channels, components) {
        MenuItemFound(channels, components, front, item);
      }
      if exists c, t, h :: IsMenuItem(item, channels, components, c, t, h) {
        var c, t, h :| IsMenuItem(item, channels, components, c, t, h);
        if c < n - 1 {
          assert front[c] == components[c];
          assert IsMenuItem(item, channels, front, c, t, h);
        }
      }
    }
  }

  /** An item of the menu comes from the last component or from one before it. */
  lemma MenuItemFound(channels: seq<string>, components: seq<(string, TelemetryComponent)>,
                      front: seq<(string, TelemetryComponent)>, item: MenuItem)
    requires components != [] && front == components[..|components| - 1]
    requires item in MenuItems(channels, front) ||
             item in TelemetryItems(channels, components[|components| - 1].0, components[|components| - 1].1.telemetries)
    requires item in MenuItems(channels, front) ==> exists c, t, h :: IsMenuItem(item, channels, front, c, t, h)
    requires var last := components[|components| - 1];
      item in TelemetryItems(channels, last.0, last.1.telemetries) ==>
        exists t, h :: IsTelemetryItem(item, channels, last.0, last.1.telemetries, t, h)
    ensures exists c, t, h :: IsMenuItem(item, channels, components, c, t, h)
  {
    var n := |components|;
    var last := components[n - 1];
    if item in TelemetryItems(channels, last.0, last.1.telemetries) {
      var t, h :| IsTelemetryItem(item, channels, last.0, last.1.telemetries, t, h);
      assert IsMenuItem(item, channels, components, n - 1, t, h);
    } else {
      var c, t, h :| IsMenuItem(item, channels, front, c, t, h);
      assert front[c] == components[c];
      assert IsMenuItem(item, channels, components, c, t, h);
    }
  }

  // ---------------------------------------------------------------------------
  // The menu order

  /** JavaScript's `<` on strings: lexicographic by character, a proper prefix
    * first. */
  predicate LexLess(a: string, b: string)
    decreases |a|
  {
    if a == [] then b != []
    else if b == [] then false
    else if a[0] != b[0] then a[0] < b[0]
    else LexLess(a[1..], b[1..])
  }

  lemma {:induction false} LexLessIrreflexive(a: string)
    ensures !LexLess(a, a)
    decreases |a|
  {
    if a != [] {
      LexLessIrreflexive(a[1..]);
    }
  }

  /** Of two different strings exactly one is less than the other. */
  lemma {:induction false} LexLessTotal(a: string, b: string)
    ensures a != b <==> LexLess(a, b) || LexLess(b, a)
    ensures !(LexLess(a, b) && LexLess(b, a))
    decreases |a|
  {
    if a == b {
      LexLessIrreflexive(a);
    } else if a != [] && b != [] && a[0] == b[0] {
      LexLessTotal(a[1..], b[1..]);
      assert a == [a[0]] + a[1..] && b == [b[0]] + b[1..];
    }
  }

  lemma {:induction false} LexLessTransitive(a: string, b: string, c: string)
    requires LexLess(a, b) && LexLess(b, c)
    ensures LexLess(a, c)
    decreases |a|
  {
    if a != [] && a[0] == b[0] && b[0] == c[0] {
      LexLessTransitive(a[1..], b[1..], c[1..]);
    }
  }

  /** Whether an item belongs to the real-time channel, listed first. */
  predicate IsRealTime(item: MenuItem)
  {
    StartsWith(item.name, "RT.")
  }

  /** The comparator `telemetryListItems` sorts with. */
  function Compare(a: MenuItem, b: MenuItem): (r: int)
    ensures -1 <= r <= 1
    ensures IsRealTime(a) && !IsRealTime(b) ==> r == -1
  {
    var rtA := IsRealTime(a);
    var rtB := IsRealTime(b);
    if rtA && !rtB then -1
    else if !rtA && rtB then 1
    else if LexLess(b.name, a.name) then 1
    else if LexLess(a.name, b.name) then -1
    else 0
  }

  /** `a` may come before `b`. */
  predicate InOrder(a: MenuItem, b: MenuItem)
  {
    Compare(a, b) <= 0
  }

  /** The comparator is consistent, as `Array#sort` needs: it answers 0
    * exactly for equal names, swapping the arguments negates it, and
    * "may come before" is total and transitive. */
  lemma CompareConsistent(a: MenuItem, b: MenuItem, c: MenuItem)
    ensures Compare(a, b) == 0 <==> a.name == b.name
    ensures Compare(b, a) == -Compare(a, b)
    ensures InOrder(a, b) || InOrder(b, a)
    ensures InOrder(a, b) && InOrder(b, c) ==> InOrder(a, c)
  {
    LexLessTotal(a.name, b.name);
    LexLessTotal(b.name, c.name);
    LexLessTotal(a.name, c.name);
    if InOrder(a, b) && InOrder(b, c) && IsRealTime(a) == IsRealTime(c) {
      if LexLess(a.name, b.name) && LexLess(b.name, c.name) {
        LexLessTransitive(a.name, b.name, c.name);
      }
    }
  }

  /** `InOrder` is total and transitive, so the sort may use it. */
  lemma InOrderTotalPreorder()
    ensures TotalPreorder(InOrder)
  {
    forall a: MenuItem, b: MenuItem
      ensures InOrder(a, b) || InOrder(b, a)
    {
      CompareConsistent(a, b, b);
    }
    forall a: MenuItem, b: MenuItem, c: MenuItem | InOrder(a, b) && InOrder(b, c)
      ensures InOrder(a, c)
    {
      CompareConsistent(a, b, c);
    }
  }

  /** Every item may come before every later item. */
  predicate Sorted(items: seq<MenuItem>)
  {
    SortedBy(items, InOrder)
  }

  /** A sorted menu lists every `RT.` item before every other item: whatever
    * precedes an `RT.` item is an `RT.` item too. */
  lemma RealTimeFirst(items: seq<MenuItem>, i: nat, j: nat)
    requires Sorted(items) && i < j < |items|
    requires IsRealTime(items[j])
    ensures IsRealTime(items[i])
  {
    assert InOrder(items[i], items[j]);
  }

  /** Within the `RT.` items and within the others, a sorted menu is in
    * ascending string order of names. */
  lemma GroupsAscending(items: seq<MenuItem>, i: nat, j: nat)
    requires Sorted(items) && i < j < |items|
    requires IsRealTime(items[i]) == IsRealTime(items[j])
    ensures !LexLess(items[j].name, items[i].name)
  {
    assert InOrder(items[i], items[j]);
  }

  // ---------------------------------------------------------------------------
  // `Array#sort`, as an insertion sort by a comparator

  /** `le(x, y)`: the comparator lets `x` come before `y`. It must be total
    * and transitive, as `Array#sort` requires of a consistent comparator. */
  ghost predicate TotalPreorder<T(!new)>(le: (T, T) -> bool)
  {
    && (forall x, y :: le(x, y) || le(y, x))
    && (forall x, y, z :: le(x, y) && le(y, z) ==> le(x, z))
  }

  /** Every element may come before every later element. */
  predicate SortedBy<T>(s: seq<T>, le: (T, T) -> bool)
  {
    forall i, j :: 0 <= i < j < |s| ==> le(s[i], s[j])
  }

  /** The first `n` elements are in order. */
  predicate SortedPrefix<T>(s: seq<T>, n: int, le: (T, T) -> bool)
  {
    0 <= n <= |s| && forall k, l :: 0 <= k < l < n ==> le(s[k], s[l])
  }

  /** Midway through inserting element `i`: it sits at `j`, everything else up
    * to `i` is in order, and it may come before everything after it. */
  predicate Inserting<T>(s: seq<T>, i: int, j: int, le: (T, T) -> bool)
  {
    && 0 <= j <= i < |s|
    && (forall k, l :: 0 <= k < l <= i && k != j && l != j ==> le(s[k], s[l]))
    && (forall l :: j < l <= i ==> le(s[j], s[l]))
  }

  lemma InsertingStart<T>(s: seq<T>, i: int, le: (T, T) -> bool)
    requires SortedPrefix(s, i, le) && i < |s|
    ensures Inserting(s, i, i, le)
  {
  }

  /** Swapping the inserted element with a neighbour that must come after it. */
  lemma InsertingSwap<T(!new)>(s: seq<T>, i: int, j: int, le: (T, T) -> bool)
    requires TotalPreorder(le)
    requires Inserting(s, i, j, le) && j > 0 && !le(s[j - 1], s[j])
    ensures Inserting(s[j - 1 := s[j]][j := s[j - 1]], i, j - 1, le)
  {
    var t := s[j - 1 := s[j]][j := s[j - 1]];
    assert le(t[j - 1], t[j]);
    forall l | j - 1 < l <= i
      ensures le(t[j - 1], t[l])
    {
    }
  }

  /** The inserted element has reached its place. */
  lemma InsertingDone<T(!new)>(s: seq<T>, i: int, j: int, le: (T, T) -> bool)
    requires TotalPreorder(le)
    requires Inserting(s, i, j, le) && (j == 0 || le(s[j - 1], s[j]))
    ensures SortedPrefix(s, i + 1, le)
  {
    forall k, l | 0 <= k < l <= i
      ensures le(s[k], s[l])
    {
      if l == j && k < j - 1 {
        assert le(s[k], s[j - 1]);
      }
    }
  }

  /** One round of the insertion sort: element `i` moves down to its place. */
  method InsertItem<T(!new)>(a: array<T>, i: int, le: (T, T) -> bool)
    requires TotalPreorder(le)
    requires SortedPrefix(a[..], i, le) && i < a.Length
    modifies a
    ensures SortedPrefix(a[..], i + 1, le)
    ensures multiset(a[..]) == multiset(old(a[..]))
  {
    InsertingStart(a[..], i, le);
    var j := i;
    while j > 0 && !le(a[j - 1], a[j])
      invariant Inserting(a[..], i, j, le)
      invariant multiset(a[..]) == multiset(old(a[..]))
    {
      ghost var s := a[..];
      InsertingSwap(s, i, j, le);
      SwapPermutes(s, j - 1, j);
      a[j - 1], a[j] := a[j], a[j - 1];
      assert a[..] == s[j - 1 := s[j]][j := s[j - 1]];
      j := j - 1;
    }
    InsertingDone(a[..], i, j, le);
  }

  /** `items.sort(...)`: an insertion sort in place, by the comparator. */
  method SortItems<T(!new)>(a: array<T>, le: (T, T) -> bool)
    requires TotalPreorder(le)
    modifies a
    ensures SortedBy(a[..], le)
    ensures multiset(a[..]) == multiset(old(a[..]))
  {
    var i := 0;
    while i < a.Length
      invariant SortedPrefix(a[..], i, le)
      invariant multiset(a[..]) == multiset(old(a[..]))
    {
      InsertItem(a, i, le);
      i := i + 1;
    }
  }

  /** `telemetryListItems`: collect the items, then sort them. The result is
    * sorted and holds exactly the collected items. */
  method TelemetryListItems(channels: seq<string>, components: seq<(string, TelemetryComponent)>) returns (items: seq<MenuItem>)
    ensures Sorted(items)
    ensures multiset(items) == multiset(MenuItems(channels, components))
  {
    var collected := CollectMenuItems(channels, components);
    var a := new MenuItem[|collected|](k requires 0 <= k < |collected| => collected[k]);
    assert a[..] == collected;
    InOrderTotalPreorder();
    SortItems(a, InOrder);
    items := a[..];
  }
}

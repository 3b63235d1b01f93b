/**
  TXT records in mdns.c: the entries that are appended (lines 652-681 and 998-1014), and the two passes
  of the parser that counts and then builds the items (lines 3437-3569); section 6 of RFC 6763.
 */
module TxtRecord {

  import opened Bytes

  const EQUALS: Byte := 61

  datatype Value = None | Some(text: Text)

  /** A key, and a value that may be a null pointer. */
  datatype Item = Item(key: Text, value: Value)

  // ----- Writing -----

  function EntryBytes(item: Item): Text {
    match item.value
    case None => item.key
    case Some(text) => item.key + [EQUALS] + text
  }

  /** append_one_txt_record_entry; the length goes into one byte. */
  function Entry(item: Item): Text {
    [(|EntryBytes(item)| % 256) as Byte] + EntryBytes(item)
  }

  function Entries(items: seq<Item>): Text {
    if items == [] then [] else Entry(items[0]) + Entries(items[1..])
  }

  /** The data of the record: a single zero byte when there is nothing to say. */
  function Encode(items: seq<Item>): Text {
    if Entries(items) == [] then [0] else Entries(items)
  }

  /** A non-empty key without a terminator or '=', and an entry that fits its length byte. */
  predicate Good(item: Item) {
    && item.key != [] && (forall i :: 0 <= i < |item.key| ==> item.key[i] != 0 && item.key[i] != EQUALS)
    && |EntryBytes(item)| <= 255
  }

  predicate AllGood(items: seq<Item>) {
    forall i :: 0 <= i < |items| ==> Good(items[i])
  }

  // ----- Reading -----

  datatype Parsed = Error | Parsed(items: seq<Item>)

  /** _mdns_txt_items_count_get from a position on; -1 is an error. */
  function CountFrom(data: Text, i: nat): (n: int)
    ensures n >= -1
    decreases |data| - i
  {
    if i >= |data| || data[i] == 0 then 0
    else if i + 1 + data[i] > |data| then -1
    else
      var rest := CountFrom(data, i + 1 + data[i]);
      if rest < 0 then -1 else rest + 1
  }

  function Count(data: Text): int {
    if |data| == 1 then 0 else CountFrom(data, 0)
  }

  /** The position of the first '=', or the length. */
  function NameLength(part: Text): (n: nat)
    ensures n <= |part|
    ensures n < |part| ==> part[n] == EQUALS
    ensures forall i :: 0 <= i < n ==> part[i] != EQUALS
  {
    if part == [] || part[0] == EQUALS then 0 else 1 + NameLength(part[1..])
  }

  /** An item of a part; an empty value is left out. */
  function ItemOf(part: Text): Item {
    var n := NameLength(part);
    Item(part[..n], if n + 1 < |part| then Some(part[n + 1..]) else None)
  }

  function Prepend(item: Item, after: Parsed): Parsed {
    if after.Error? then Error else Parsed([item] + after.items)
  }

  /**
    The building loop from a position on. After a part without '=' it goes on one byte too far: line
    3538 steps over the '=' in any case.
   */
  function ParseFrom(data: Text, i: nat): Parsed
    decreases |data| - i
  {
    if i >= |data| || data[i] == 0 then Parsed([])
    else if i + 1 + data[i] > |data| then Error
    else
      var next := i + 1 + data[i];
      var part := data[i + 1..next];
      if part[0] == EQUALS then ParseFrom(data, next)
      else Prepend(ItemOf(part), ParseFrom(data, if NameLength(part) == |part| then next + 1 else next))
  }

  /** _mdns_result_txt_create */
  function Parse(data: Text): Parsed {
    var n := Count(data);
    if n < 0 then Error else if n == 0 then Parsed([]) else ParseFrom(data, 0)
  }

  // ----- The round trip -----

  /** What can come back of an item: an empty value comes back as none. */
  function Returned(item: Item): Item {
    if item.value == Some([]) then item.(value := None) else item
  }

  function ReturnedAll(items: seq<Item>): seq<Item> {
    if items == [] then [] else [Returned(items[0])] + ReturnedAll(items[1..])
  }

  /** Every item has a value, but for the last, which need not. */
  ghost predicate Valued(items: seq<Item>) {
    forall i :: 0 <= i < |items| - 1 ==> items[i].value.Some?
  }

  lemma NameOfEntry(item: Item)
    requires Good(item)
    ensures var part := EntryBytes(item);
            part != [] && part[0] != EQUALS && NameLength(part) == |item.key| && ItemOf(part) == Returned(item)
            && (NameLength(part) == |part| <==> item.value.None?)
  {
    var part := EntryBytes(item);
    var n := NameLength(part);
    assert forall i :: 0 <= i < |item.key| ==> part[i] == item.key[i];
    if item.value.Some? {
      assert part[|item.key|] == EQUALS;
      assert part[|item.key| + 1..] == item.value.text;
    }
    assert part[..|item.key|] == item.key;
  }

  /** The data from a position on begins with the entry of an item. */
  lemma EntryAt(data: Text, i: nat, item: Item, rest: Text)
    requires Good(item) && i <= |data| && data[i..] == Entry(item) + rest
    ensures var next := i + 1 + |EntryBytes(item)|;
            i < |data| && data[i] == |EntryBytes(item)| && next <= |data|
            && data[i + 1..next] == EntryBytes(item) && data[next..] == rest
  {
    var s := data[i..];
    var next := i + 1 + |EntryBytes(item)|;
    assert data[i] == s[0];
    assert data[i + 1..next] == s[1..next - i];
    assert data[next..] == s[next - i..];
  }

  /** One round of the counting loop. */
  lemma CountsOne(data: Text, i: nat, next: nat)
    requires i < |data| && data[i] != 0 && next == i + 1 + data[i] <= |data| && CountFrom(data, next) >= 0
    ensures CountFrom(data, i) == CountFrom(data, next) + 1
  {
  }

  /** One round of the building loop. */
  lemma ParsesOne(data: Text, i: nat, item: Item, next: nat)
    requires Good(item) && i < |data| && data[i] == |EntryBytes(item)| && next == i + 1 + data[i] <= |data|
    requires data[i + 1..next] == EntryBytes(item)
    ensures ParseFrom(data, i) ==
              Prepend(Returned(item), ParseFrom(data, if item.value.None? then next + 1 else next))
  {
    NameOfEntry(item);
  }

  lemma ParsesNothing(data: Text, i: nat)
    requires i >= |data|
    ensures ParseFrom(data, i) == Parsed([]) && CountFrom(data, i) == 0
  {
  }

  lemma {:induction false} CountsEntries(data: Text, i: nat, items: seq<Item>)
    requires AllGood(items) && i <= |data| && data[i..] == Entries(items)
    ensures CountFrom(data, i) == |items|
    decreases |items|
  {
    if items != [] {
      var next := i + 1 + |EntryBytes(items[0])|;
      EntryAt(data, i, items[0], Entries(items[1..]));
      CountsEntries(data, next, items[1..]);
      CountsOne(data, i, next);
    }
  }

  lemma {:induction false} ParsesEntries(data: Text, i: nat, items: seq<Item>)
    requires AllGood(items) && Valued(items) && i <= |data| && data[i..] == Entries(items)
    ensures ParseFrom(data, i) == Parsed(ReturnedAll(items))
    decreases |items|
  {
    if items == [] {
      ParsesNothing(data, i);
    } else {
      var rest := Entries(items[1..]);
      EntryAt(data, i, items[0], rest);
      var next := i + 1 + |EntryBytes(items[0])|;
      ParsesEntries(data, next, items[1..]);
      ParsesOne(data, i, items[0], next);
      if items[0].value.None? {
        assert items[1..] == [] && rest == [] && next == |data|;
        ParsesNothing(data, next);
        ParsesNothing(data, next + 1);
      }
    }
  }

  lemma EncodedIsLong(items: seq<Item>)
    requires AllGood(items) && items != []
    ensures |Entries(items)| >= 2 && Encode(items) == Entries(items)
  {
    assert Good(items[0]);
  }

  // ----- Exactly when it works -----

  /** How many bytes the items take at least when they are read, counting one '=' each. */
  function Size(items: seq<Item>): nat {
    if items == [] then 0
    else 2 + |items[0].key| + (match items[0].value case None => 0 case Some(t) => |t|) + Size(items[1..])
  }

  lemma ItemSize(part: Text)
    requires part != []
    ensures var item := ItemOf(part);
            Size([item]) == if NameLength(part) == |part| then |part| + 2 else |part| + 1
  {
    assert [ItemOf(part)][1..] == [];
  }

  lemma SizeFirst(item: Item, rest: seq<Item>)
    ensures Size([item] + rest) == Size([item]) + Size(rest)
  {
    assert ([item] + rest)[1..] == rest;
    assert [item][1..] == [];
  }

  /** What is read takes up the bytes that are there, and perhaps one more. */
  lemma {:induction false} SizeBound(data: Text, i: nat)
    requires i <= |data| + 1 && ParseFrom(data, i).Parsed?
    ensures Size(ParseFrom(data, i).items) <= |data| + 1 - i
    decreases |data| - i
  {
    if i < |data| && data[i] != 0 {
      var next := i + 1 + data[i];
      var part := data[i + 1..next];
      if part[0] == EQUALS {
        SizeBound(data, next);
      } else {
        var after := if NameLength(part) == |part| then next + 1 else next;
        SizeBound(data, after);
        ItemSize(part);
        SizeFirst(ItemOf(part), ParseFrom(data, after).items);
      }
    }
  }

  function Nulls(items: seq<Item>): nat {
    if items == [] then 0 else (if items[0].value.None? then 1 else 0) + Nulls(items[1..])
  }

  lemma {:induction false} EntriesSize(items: seq<Item>)
    requires AllGood(items)
    ensures Size(ReturnedAll(items)) == |Entries(items)| + Nulls(items)
  {
    if items != [] {
      EntriesSize(items[1..]);
      SizeFirst(Returned(items[0]), ReturnedAll(items[1..]));
      assert [Returned(items[0])][1..] == [];
    }
  }

  lemma {:induction false} NoNulls(items: seq<Item>)
    requires Nulls(items) == 0
    ensures forall i :: 0 <= i < |items| ==> items[i].value.Some?
  {
    if items != [] {
      NoNulls(items[1..]);
    }
  }

  /** Reading one byte too late, the key of an item with a value does not come back. */
  lemma KeyIsLost(data: Text, q: nat, item: Item, part: Text)
    requires Good(item) && item.value.Some? && q + |EntryBytes(item)| <= |data|
    requires data[q..q + |EntryBytes(item)|] == EntryBytes(item)
    requires q + 1 + |part| <= |data| && part == data[q + 1..q + 1 + |part|]
    ensures ItemOf(part).key != item.key
  {
    var k, bytes := |item.key|, EntryBytes(item);
    assert data[q + k] == data[q..q + |bytes|][k] == EQUALS;
    assert k - 1 < |part| ==> part[k - 1] == data[q + k];
  }

  /** What is read from one byte too late is not what was written. */
  lemma Misread(data: Text, next: nat, items: seq<Item>)
    requires AllGood(items) && items != [] && next < |data| && data[next..] == Entries(items)
    ensures ParseFrom(data, next + 1) != Parsed(ReturnedAll(items))
  {
    var q := next + 1;
    EntriesSize(items);
    if ParseFrom(data, q).Parsed? {
      SizeBound(data, q);
      if Nulls(items) == 0 {
        NoNulls(items);
        EntryAt(data, next, items[0], Entries(items[1..]));
        NameOfEntry(items[0]);
        assert data[q..q + |EntryBytes(items[0])|][0] == data[q];
        var part := data[q + 1..q + 1 + data[q]];
        if part[0] == EQUALS {
          SizeBound(data, q + 1 + data[q]);
        } else {
          KeyIsLost(data, q, items[0], part);
        }
      }
    }
  }

  /** One item is read, and then the rest from where the loop goes on. */
  lemma ParseOne(data: Text, i: nat, item: Item, rest: Text, at: nat)
    requires Good(item) && i <= |data| && data[i..] == Entry(item) + rest
    requires at == i + 1 + |EntryBytes(item)| + if item.value.None? then 1 else 0
    ensures ParseFrom(data, i) == Prepend(Returned(item), ParseFrom(data, at))
  {
    EntryAt(data, i, item, rest);
    NameOfEntry(item);
  }

  lemma TailsDiffer(item: Item, after: Parsed, tail: seq<Item>)
    requires after != Parsed(tail)
    ensures Prepend(item, after) != Parsed([item] + tail)
  {
    if after.Parsed? {
      assert ([item] + after.items)[1..] == after.items && ([item] + tail)[1..] == tail;
    }
  }

  /** When the rest goes wrong, so does the whole. */
  lemma RestGoesWrong(data: Text, i: nat, item: Item, rest: Text, at: nat, tail: seq<Item>)
    requires Good(item) && i <= |data| && data[i..] == Entry(item) + rest && ParseFrom(data, at) != Parsed(tail)
    requires at == i + 1 + |EntryBytes(item)| + if item.value.None? then 1 else 0
    ensures ParseFrom(data, i) != Parsed([Returned(item)] + tail)
  {
    ParseOne(data, i, item, rest, at);
    TailsDiffer(Returned(item), ParseFrom(data, at), tail);
  }

  /** After the first item without a value that is not the last, the reading goes wrong. */
  lemma {:induction false} MissesEntries(data: Text, i: nat, items: seq<Item>, j: nat)
    requires AllGood(items) && i <= |data| && data[i..] == Entries(items)
    requires j < |items| - 1 && items[j].value.None? && forall k :: 0 <= k < j ==> items[k].value.Some?
    ensures ParseFrom(data, i) != Parsed(ReturnedAll(items))
    decreases j
  {
    var rest := items[1..];
    var next := i + 1 + |EntryBytes(items[0])|;
    EntryAt(data, i, items[0], Entries(rest));
    var at := if items[0].value.None? then next + 1 else next;
    if j > 0 {
      MissesEntries(data, next, rest, j - 1);
    } else {
      EncodedIsLong(rest);
      Misread(data, next, rest);
    }
    RestGoesWrong(data, i, items[0], Entries(rest), at, ReturnedAll(rest));
  }

  lemma {:induction false} FirstNull(items: seq<Item>) returns (j: nat)
    requires !Valued(items)
    ensures j < |items| - 1 && items[j].value.None? && forall k :: 0 <= k < j ==> items[k].value.Some?
  {
    if items[0].value.None? {
      j := 0;
    } else {
      var i :| 0 <= i < |items| - 1 && items[i].value.None?;
      assert items[1..][i - 1].value.None?;
      j := FirstNull(items[1..]);
      j := j + 1;
    }
  }

  /**
    What is parsed from an encoded record is what was written, with empty values left out, exactly when
    every item but the last has a value pointer; and then both passes see as many items.
   */
  lemma RoundTripExact(items: seq<Item>)
    requires AllGood(items)
    ensures Parse(Encode(items)) == Parsed(ReturnedAll(items)) <==> Valued(items)
    ensures Count(Encode(items)) == |items|
  {
    var data := Entries(items);
    if items != [] {
      EncodedIsLong(items);
      assert data[0..] == data;
      CountsEntries(data, 0, items);
      if Valued(items) {
        ParsesEntries(data, 0, items);
      } else {
        var j := FirstNull(items);
        MissesEntries(data, 0, items, j);
      }
    }
  }

  // ----- The two passes as loops -----

  /** _mdns_txt_items_count_get */
  method ItemsCountGet(data: array<Byte>) returns (n: int)
    ensures n == Count(data[..])
  {
    if data.Length == 1 {
      return 0;
    }
    n := 0;
    var i: nat := 0;
    while i < data.Length
      invariant i <= data.Length && n >= 0
      invariant CountFrom(data[..], 0) == if CountFrom(data[..], i) < 0 then -1 else n + CountFrom(data[..], i)
    {
      var partLen := data[i];
      if partLen == 0 {
        return;
      }
      if i + 1 + partLen > data.Length {
        return -1;
      }
      i := i + 1 + partLen;
      n := n + 1;
    }
  }

  /** _mdns_txt_item_name_get_len of a part that does not begin with '='. */
  method ItemNameGetLen(part: Text) returns (n: nat)
    ensures n == NameLength(part)
  {
    n := 0;
    assert part[0..] == part;
    while n < |part|
      invariant n <= |part| && NameLength(part) == n + NameLength(part[n..])
    {
      if part[n] == EQUALS {
        return;
      }
      assert part[n..][1..] == part[n + 1..];
      n := n + 1;
    }
  }

  /** What has been built and what is to come make up the whole. */
  ghost predicate Building(whole: Parsed, items: seq<Item>, rest: Parsed) {
    if rest.Error? then whole.Error? else whole == Parsed(items + rest.items)
  }

  lemma BuildNext(whole: Parsed, items: seq<Item>, item: Item, after: Parsed)
    requires Building(whole, items, Prepend(item, after))
    ensures Building(whole, items + [item], after)
  {
    if after.Parsed? {
      assert items + ([item] + after.items) == (items + [item]) + after.items;
    }
  }

  /** One round of the loop, and where it goes on. */
  lemma ParseStep(data: Text, i: nat, part: Text) returns (at: nat)
    requires i < |data| && data[i] != 0 && i + 1 + data[i] <= |data| && part == data[i + 1..i + 1 + data[i]]
    ensures at == i + 1 + |part| + if part[0] != EQUALS && NameLength(part) == |part| then 1 else 0
    ensures ParseFrom(data, i) == if part[0] == EQUALS then ParseFrom(data, at)
            else Prepend(ItemOf(part), ParseFrom(data, at))
  {
    at := i + 1 + |part| + if part[0] != EQUALS && NameLength(part) == |part| then 1 else 0;
  }

  /** _mdns_result_txt_create */
  method ResultTxtCreate(data: array<Byte>) returns (ok: bool, items: seq<Item>)
    ensures match Parse(data[..])
            case Error => !ok
            case Parsed(all) => ok && items == all
  {
    ok, items := true, [];
    var numItems := ItemsCountGet(data);
    if numItems < 0 {
      return false, [];
    }
    if numItems == 0 {
      return;
    }
    ghost var bytes, whole := data[..], ParseFrom(data[..], 0);
    var i: nat := 0;
    while i < data.Length && data[i] != 0
      invariant Building(whole, items, ParseFrom(bytes, i))
      decreases data.Length - i
    {
      var partLen := data[i];
      if i + 1 + partLen > data.Length {
        return false, [];
      }
      var part := data[i + 1..i + 1 + partLen];
      ghost var at := ParseStep(bytes, i, part);
      if part[0] == EQUALS {
        i := i + 1 + partLen;
      } else {
        var item;
        item, i := ReadItem(part, i + 1);
        BuildNext(whole, items, item, ParseFrom(bytes, at));
        items := items + [item];
      }
      assert i == at;
    }
    assert items + [] == items;
  }

  /** The inner part of the loop, from the first byte of a part: its item and the index behind it. */
  method ReadItem(part: Text, start: nat) returns (item: Item, i: nat)
    requires part != []
    ensures item == ItemOf(part)
    ensures i == start + |part| + if NameLength(part) == |part| then 1 else 0
  {
    var nameLen := ItemNameGetLen(part);
    i := start + nameLen + 1;
    item := Item(part[..nameLen], None);
    var newValueLen: int := |part| - nameLen - 1;
    if newValueLen > 0 {
      item := item.(value := Some(part[nameLen + 1..]));
      i := i + newValueLen;
    }
  }
}

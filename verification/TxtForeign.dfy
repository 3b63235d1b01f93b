/**
  TXT records of other hosts, read by the two passes of mdns.c (lines 3437-3569): what is counted and what is
  read of any data, by the parts that it is made of (sections 6.1 to 6.4 of RFC 6763).
 */
module TxtForeign {
  import opened Bytes
  import opened TxtRecord

  /** Parts of 1 to 255 bytes. */
  predicate Parts(parts: seq<Text>) {
    forall k :: 0 <= k < |parts| ==> 1 <= |parts[k]| <= 255
  }

  /** Each with its length in a byte before it. */
  function Layout(parts: seq<Text>): Text
    requires Parts(parts)
  {
    if parts == [] then [] else [|parts[0]|] + parts[0] + Layout(parts[1..])
  }

  /** Nothing follows, or a zero byte does. */
  predicate Over(rest: Text) {
    rest == [] || rest[0] == 0
  }

  /** A length that runs past the end of the data. */
  predicate Overlong(rest: Text) {
    rest != [] && rest[0] as int > |rest| - 1
  }

  lemma PartAt(data: Text, i: nat, part: Text, after: Text)
    requires 1 <= |part| <= 255 && i <= |data| && data[i..] == [|part|] + part + after
    ensures var next := i + 1 + |part|;
            i < |data| && data[i] == |part| && next <= |data| && data[i + 1..next] == part && data[next..] == after
  {
    var s := data[i..];
    var next := i + 1 + |part|;
    assert data[i] == s[0];
    assert data[i + 1..next] == s[1..next - i];
    assert data[next..] == s[next - i..];
  }

  /** The first part of a layout. */
  lemma LayoutFirst(parts: seq<Text>, rest: Text)
    requires Parts(parts) && parts != []
    ensures Layout(parts) + rest == [|parts[0]|] + parts[0] + (Layout(parts[1..]) + rest)
  {
  }

  lemma {:induction false} Counted(data: Text, i: nat, parts: seq<Text>, rest: Text)
    requires Parts(parts) && i <= |data| && data[i..] == Layout(parts) + rest && (Over(rest) || Overlong(rest))
    ensures CountFrom(data, i) == if Over(rest) then |parts| else -1
    decreases |parts|
  {
    if parts == [] {
      assert data[i..] == rest;
      assert rest != [] ==> data[i] == rest[0];
    } else {
      LayoutFirst(parts, rest);
      PartAt(data, i, parts[0], Layout(parts[1..]) + rest);
      Counted(data, i + 1 + |parts[0]|, parts[1..], rest);
    }
  }

  /** Any data consist of parts, and then are over, or run past the end. */
  lemma {:induction false} Consists(data: Text, i: nat) returns (parts: seq<Text>, rest: Text)
    requires i <= |data|
    ensures Parts(parts) && data[i..] == Layout(parts) + rest && (Over(rest) || Overlong(rest))
    decreases |data| - i
  {
    if i == |data| || data[i] == 0 || i + 1 + data[i] > |data| {
      parts, rest := [], data[i..];
    } else {
      var next := i + 1 + data[i];
      var more;
      more, rest := Consists(data, next);
      var part := data[i + 1..next];
      parts := [part] + more;
      assert parts[1..] == more;
      assert data[i..] == [|part|] + part + data[next..];
    }
  }

  /** How a part is read: up to the first '=' is the key, and what follows is the value, if there is any. */
  predicate Splits(part: Text, item: Item) {
    && '=' as int !in item.key
    && match item.value
       case None => part == item.key || part == item.key + ['=' as int]
       case Some(v) => v != [] && part == item.key + ['=' as int] + v
  }

  lemma Cut(part: Text, n: nat)
    requires n < |part|
    ensures part == part[..n] + [part[n]] + part[n + 1..]
    ensures n + 1 == |part| ==> part == part[..n] + [part[n]]
  {
  }

  lemma NameMeans(part: Text)
    ensures '=' as int !in part[..NameLength(part)] && (NameLength(part) == |part| <==> '=' as int !in part)
  {
    assert part[..|part|] == part;
  }

  lemma ItemMeans(part: Text)
    requires part != []
    ensures Splits(part, ItemOf(part)) && (NameLength(part) == |part| <==> '=' as int !in part)
  {
    var n := NameLength(part);
    NameMeans(part);
    if n < |part| {
      Cut(part, n);
    } else {
      assert part[..n] == part;
    }
  }

  /** The items of the parts that have a key, in their order. */
  predicate ReadAs(parts: seq<Text>, items: seq<Item>)
    requires Parts(parts)
  {
    if parts == [] then items == []
    else if parts[0][0] == '=' as int then ReadAs(parts[1..], items)
    else items != [] && Splits(parts[0], items[0]) && ReadAs(parts[1..], items[1..])
  }

  /** Every part has a '=', or is the last and ends the data. */
  predicate Separate(parts: seq<Text>, rest: Text) {
    forall k :: 0 <= k < |parts| ==> '=' as int in parts[k] || (k == |parts| - 1 && rest == [])
  }

  lemma {:induction false} PartsRead(data: Text, i: nat, parts: seq<Text>, rest: Text)
    requires Parts(parts) && i <= |data| && data[i..] == Layout(parts) + rest && Over(rest) && Separate(parts, rest)
    ensures ParseFrom(data, i).Parsed? && ReadAs(parts, ParseFrom(data, i).items)
    decreases |parts|
  {
    if parts == [] {
      assert data[i..] == rest;
      assert rest != [] ==> data[i] == rest[0];
    } else {
      var part, more := parts[0], parts[1..];
      LayoutFirst(parts, rest);
      PartAt(data, i, part, Layout(more) + rest);
      var next := i + 1 + |part|;
      assert Separate(more, rest) by {
        assert forall k :: 0 <= k < |more| ==> more[k] == parts[k + 1];
      }
      PartsRead(data, next, more, rest);
      ItemMeans(part);
      var at := ParseStep(data, i, part);
      if at == next + 1 {
        assert |parts| == 1 && rest == [] && more == [];
        ParsesNothing(data, next);
        ParsesNothing(data, at);
      }
      Prepended(ItemOf(part), ParseFrom(data, at));
    }
  }

  lemma Prepended(item: Item, after: Parsed)
    ensures after.Parsed? ==>
              Prepend(item, after).items[0] == item && Prepend(item, after).items[1..] == after.items
  {
  }

  /**
    Data of another host: an error when a length runs past the end; otherwise the parts are counted up to a
    zero byte or the end, and each part with a key is read, as long as each has a '=', or is the last.
   */
  lemma ForeignRecord(data: Text, parts: seq<Text>, rest: Text)
    requires |data| != 1 && Parts(parts) && data == Layout(parts) + rest
    ensures Overlong(rest) ==> Count(data) == -1 && Parse(data) == Error
    ensures Over(rest) ==> Count(data) == |parts|
    ensures Over(rest) && Separate(parts, rest) ==> Parse(data).Parsed? && ReadAs(parts, Parse(data).items)
  {
    assert data[0..] == data;
    if Over(rest) || Overlong(rest) {
      Counted(data, 0, parts, rest);
    }
    if Over(rest) && Separate(parts, rest) {
      PartsRead(data, 0, parts, rest);
    }
  }

  /** A single byte holds nothing, and an empty record is written as one; an item is its length, key, '=' and value. */
  lemma Written(key: Text, value: Text)
    requires |key| + |value| < 255
    ensures Encode([]) == [0] && Parse([0]) == Parsed([])
    ensures Encode([Item(key, Some(value))]) == [|key| + 1 + |value|] + key + ['=' as int] + value
    ensures key != [] ==> Encode([Item(key, None)]) == [|key|] + key
  {
    assert [Item(key, Some(value))][1..] == [] && [Item(key, None)][1..] == [];
  }
}

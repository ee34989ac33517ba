/** A set that remembers insertion order: a circular doubly linked list, and a map from keys to its nodes. */
module OrderedSet {
  import opened Syntax

  /** A link of the list; the sentinel has no key. */
  class Link<K> {
    const key: Option<K>
    var prev: Link<K>
    var next: Link<K>

    constructor Sentinel()
      ensures key == None && prev == this && next == this
    {
      key := None;
      prev, next := this, this;
    }

    constructor (key: K, prev: Link<K>, next: Link<K>)
      ensures this.key == Some(key) && this.prev == prev && this.next == next
    {
      this.key := Some(key);
      this.prev, this.next := prev, next;
    }
  }

  ghost predicate Unique<K(!new)>(keys: seq<K>) {
    forall i, j | 0 <= i < j < |keys| :: keys[i] != keys[j]
  }

  /** The keys without the given one. */
  function Without<K(==)>(keys: seq<K>, key: K): seq<K> {
    if keys == [] then []
    else if keys[0] == key then Without(keys[1..], key)
    else [keys[0]] + Without(keys[1..], key)
  }

  lemma {:induction false} WithoutMember<K>(keys: seq<K>, key: K, k: K)
    ensures k in Without(keys, key) <==> k in keys && k != key
    decreases |keys|
  {
    if keys != [] {
      WithoutMember(keys[1..], key, k);
      assert k in keys <==> k == keys[0] || k in keys[1..];
    }
  }

  lemma {:induction false} WithoutAbsent<K>(keys: seq<K>, key: K)
    requires key !in keys
    ensures Without(keys, key) == keys
    decreases |keys|
  {
    if keys != [] {
      WithoutAbsent(keys[1..], key);
    }
  }

  lemma {:induction false} WithoutAt<K(!new)>(keys: seq<K>, i: nat)
    requires Unique(keys) && i < |keys|
    ensures Without(keys, keys[i]) == keys[..i] + keys[i + 1..]
    decreases |keys|
  {
    if i == 0 {
      WithoutAbsent(keys[1..], keys[0]);
    } else {
      assert keys[0] != keys[i];
      WithoutAt(keys[1..], i - 1);
      assert [keys[0]] + keys[1..][..i - 1] == keys[..i] && keys[1..][i..] == keys[i + 1..];
    }
  }

  function Reversed<K>(keys: seq<K>): (r: seq<K>)
    ensures |r| == |keys| && forall i | 0 <= i < |r| :: r[i] == keys[|keys| - 1 - i]
  {
    seq(|keys|, i requires 0 <= i < |keys| => keys[|keys| - 1 - i])
  }

  ghost predicate AllKeyed<K>(links: seq<Link<K>>) {
    forall i | 0 <= i < |links| :: links[i].key.Some?
  }

  ghost function KeysOf<K>(links: seq<Link<K>>): (keys: seq<K>)
    requires AllKeyed(links)
    ensures |keys| == |links|
  {
    seq(|links|, i requires 0 <= i < |links| => links[i].key.value)
  }

  /** The i-th link; the sentinel lies before the first and after the last. */
  ghost function At<K>(end: Link<K>, links: seq<Link<K>>, i: int): Link<K> {
    if 0 <= i < |links| then links[i] else end
  }

  /** Following `next` leads through the links in order and back, following `prev` the other way. */
  ghost predicate IsRing<K>(end: Link<K>, links: seq<Link<K>>)
    reads end, links
  {
    && (forall i {:trigger At(end, links, i).next} | -1 <= i < |links| ::
        At(end, links, i).next == At(end, links, i + 1))
    && (forall i {:trigger At(end, links, i).prev} | 0 <= i <= |links| ::
        At(end, links, i).prev == At(end, links, i - 1))
  }

  ghost predicate DistinctLinks<K>(links: seq<Link<K>>) {
    forall i, j | 0 <= i < j < |links| :: links[i] != links[j]
  }

  /** Distinct keys belong to distinct links. */
  lemma UniqueLinks<K(!new)>(links: seq<Link<K>>)
    requires AllKeyed(links) && Unique(KeysOf(links))
    ensures DistinctLinks(links)
  {
    forall i, j | 0 <= i < j < |links|
      ensures links[i] != links[j]
    {
      assert KeysOf(links)[i] != KeysOf(links)[j];
    }
  }

  /** The map takes each key to its link. */
  ghost predicate IsIndex<K(!new)>(m: map<K, Link<K>>, links: seq<Link<K>>) {
    && AllKeyed(links) && Unique(KeysOf(links))
    && (forall i | 0 <= i < |links| :: KeysOf(links)[i] in m && m[KeysOf(links)[i]] == links[i])
    && (forall k | k in m :: k in KeysOf(links))
  }

  lemma IndexMember<K(!new)>(m: map<K, Link<K>>, links: seq<Link<K>>, key: K)
    requires IsIndex(m, links)
    ensures AllKeyed(links) && (key in m <==> key in KeysOf(links))
  {}

  lemma IndexGrows<K(!new)>(m: map<K, Link<K>>, links: seq<Link<K>>, link: Link<K>)
    requires IsIndex(m, links) && link.key.Some? && link.key.value !in m
    ensures IsIndex(m[link.key.value := link], links + [link])
    ensures KeysOf(links + [link]) == KeysOf(links) + [link.key.value]
  {
    assert KeysOf(links + [link]) == KeysOf(links) + [link.key.value];
  }

  lemma IndexIsDistinct<K(!new)>(m: map<K, Link<K>>, links: seq<Link<K>>)
    requires IsIndex(m, links)
    ensures DistinctLinks(links)
  {
    UniqueLinks(links);
  }

  lemma IndexShrinks<K(!new)>(m: map<K, Link<K>>, links: seq<Link<K>>, key: K) returns (i: nat)
    requires IsIndex(m, links) && key in m
    ensures i < |links| && links[i] == m[key]
    ensures IsIndex(m - {key}, links[..i] + links[i + 1..])
    ensures KeysOf(links[..i] + links[i + 1..]) == Without(KeysOf(links), key)
  {
    hide Unique, Without;
    var keys := KeysOf(links);
    i :| 0 <= i < |keys| && keys[i] == key;
    var links' := links[..i] + links[i + 1..];
    WithoutAt(keys, i);
    assert KeysOf(links') == keys[..i] + keys[i + 1..];
    UniqueWithout(keys, i);
    forall k | k in m - {key}
      ensures k in KeysOf(links')
    {
      var j :| 0 <= j < |keys| && keys[j] == k;
      assert KeysOf(links')[if j < i then j else j - 1] == k;
    }
  }

  lemma IndexEmpty<K(!new)>(m: map<K, Link<K>>, links: seq<Link<K>>)
    requires IsIndex(m, links)
    ensures |m| == 0 <==> links == []
    ensures AllKeyed(links)
  {
    assert links != [] ==> KeysOf(links)[0] in m;
    if links == [] {
      assert m == map[];
    }
  }

  lemma IndexWithout<K(!new)>(m: map<K, Link<K>>, links: seq<Link<K>>, i: nat)
    requires IsIndex(m, links) && i < |links|
    ensures AllKeyed(links) && KeysOf(links)[i] == links[i].key.value
    ensures Without(KeysOf(links), links[i].key.value) == KeysOf(links)[..i] + KeysOf(links)[i + 1..]
  {
    WithoutAt(KeysOf(links), i);
  }

  lemma UniqueWithout<K(!new)>(keys: seq<K>, i: nat)
    requires Unique(keys) && i < |keys|
    ensures Unique(keys[..i] + keys[i + 1..]) && keys[i] !in keys[..i] + keys[i + 1..]
  {}

  /** Links in a new key between the last link and the sentinel. */
  method InsertBeforeEnd<K>(end: Link<K>, ghost links: seq<Link<K>>, key: K) returns (link: Link<K>)
    requires IsRing(end, links) && end !in links && DistinctLinks(links)
    modifies end, links
    ensures fresh(link) && link.key == Some(key) && IsRing(end, links + [link])
  {
    var curr := end.prev;
    assert At(end, links, |links|) == end && curr == At(end, links, |links| - 1);
    link := new Link(key, curr, end);
    curr.next := link;
    end.prev := link;
    ghost var links' := links + [link];
    forall k | -1 <= k < |links'|
      ensures At(end, links', k).next == At(end, links', k + 1)
      ensures At(end, links', k + 1).prev == At(end, links', k)
    {
      if k < |links| {
        assert At(end, links', k) == At(end, links, k);
        assert old(At(end, links, k).next) == At(end, links, k + 1);
        assert old(At(end, links, k + 1).prev) == At(end, links, k);
      }
    }
  }

  /** Takes a link out by joining its neighbours. */
  method Unlink<K>(end: Link<K>, ghost links: seq<Link<K>>, ghost i: nat, link: Link<K>)
    requires IsRing(end, links) && end !in links && i < |links| && links[i] == link
    requires DistinctLinks(links)
    modifies end, links
    ensures IsRing(end, links[..i] + links[i + 1..])
  {
    var prev, next := link.prev, link.next;
    assert At(end, links, i) == link && prev == At(end, links, i - 1) && next == At(end, links, i + 1);
    prev.next := next;
    next.prev := prev;
    ghost var links' := links[..i] + links[i + 1..];
    forall k | -1 <= k < |links'|
      ensures At(end, links', k).next == At(end, links', k + 1)
      ensures At(end, links', k + 1).prev == At(end, links', k)
    {
      var j := if k < i then k else k + 1;
      assert At(end, links', k) == At(end, links, j);
      assert At(end, links', k + 1) == At(end, links, if k + 1 < i then k + 1 else k + 2);
      assert old(At(end, links, j).next) == At(end, links, j + 1);
      assert old(At(end, links, j + 1).prev) == At(end, links, j);
    }
  }

  class OrderedSet<K(==, !new)> {
    const end: Link<K>
    var index: map<K, Link<K>>
    ghost var links: seq<Link<K>>

    constructor ()
      ensures Valid() && fresh(Repr()) && Contents() == []
    {
      var sentinel := new Link<K>.Sentinel();
      end := sentinel;
      index := map[];
      links := [];
    }

    ghost function Repr(): set<object>
      reads this
    {
      {this, end} + set l | l in links
    }

    ghost predicate Valid()
      reads this, Repr()
    {
      IsRing(end, links) && end !in links && IsIndex(index, links)
    }

    ghost function Contents(): seq<K>
      reads this, Repr()
      requires Valid()
    {
      KeysOf(links)
    }

    /** What an ordered set contains depends only on its own objects. */
    twostate lemma Unaffected()
      requires old(Valid()) && forall o | o in old(Repr()) :: unchanged(o)
      ensures Valid() && Repr() == old(Repr()) && Contents() == old(Contents())
    {
      assert this in old(Repr()) && end in old(Repr()) && links == old(links);
      assert forall l | l in links :: l in old(Repr());
    }

    predicate Contains(key: K)
      requires Valid()
      reads this, Repr()
      ensures Contains(key) <==> key in Contents()
    {
      key in index
    }

    /** Appends the key unless it is there. */
    method Add(key: K) returns (changed: bool)
      requires Valid()
      modifies Repr()
      ensures Valid() && fresh(Repr() - old(Repr()))
      ensures changed <==> key !in old(Contents())
      ensures Contents() == if changed then old(Contents()) + [key] else old(Contents())
    {
      hide IsRing, IsIndex, Unique;
      IndexMember(index, links, key);
      if key !in index {
        IndexIsDistinct(index, links);
        var link := InsertBeforeEnd(end, links, key);
        IndexGrows(index, links, link);
        index := index[key := link];
        links := links + [link];
        return true;
      }
      return false;
    }

    /** Removes the key if it is there, and keeps the order of the others. */
    method Discard(key: K) returns (changed: bool)
      requires Valid()
      modifies Repr()
      ensures Valid() && Repr() <= old(Repr())
      ensures changed <==> key in old(Contents())
      ensures Contents() == Without(old(Contents()), key)
    {
      hide IsRing, IsIndex, Unique;
      IndexMember(index, links, key);
      if key in index {
        var link := index[key];
        ghost var i := IndexShrinks(index, links, key);
        IndexIsDistinct(index, links);
        index := index - {key};
        Unlink(end, links, i, link);
        links := links[..i] + links[i + 1..];
        return true;
      }
      WithoutAbsent(Contents(), key);
      return false;
    }

    /** The keys in the order in which they were added. */
    method Iterate() returns (keys: seq<K>)
      requires Valid()
      ensures keys == Contents()
    {
      keys := [];
      var curr := end.next;
      assert At(end, links, -1) == end;
      ghost var i := 0;
      while curr != end
        invariant 0 <= i <= |links| && curr == At(end, links, i) && keys == Contents()[..i]
        decreases |links| - i
      {
        assert At(end, links, i) == links[i] && links[i].key.value == Contents()[i];
        keys := keys + [curr.key.value];
        curr := curr.next;
        i := i + 1;
      }
      assert i == |links|;
      assert Contents()[..|links|] == Contents();
    }

    /** The keys in the opposite order, by following the links the other way. */
    method IterateReversed() returns (keys: seq<K>)
      requires Valid()
      ensures keys == Reversed(Contents())
    {
      keys := [];
      var curr := end.prev;
      assert At(end, links, |links|) == end;
      ghost var i := |links| - 1;
      while curr != end
        invariant -1 <= i < |links| && curr == At(end, links, i) && keys == Reversed(Contents())[..|links| - 1 - i]
        decreases i
      {
        assert At(end, links, i) == links[i]
            && links[i].key.value == Contents()[i] == Reversed(Contents())[|links| - 1 - i];
        keys := keys + [curr.key.value];
        curr := curr.prev;
        i := i - 1;
      }
      assert i == -1;
    }

    /** Removes the last or the first key; None if there is none. */
    method Pop(last: bool) returns (key: Option<K>)
      requires Valid()
      modifies Repr()
      ensures Valid() && Repr() <= old(Repr())
      ensures key.None? <==> old(Contents()) == []
      ensures key.None? ==> Contents() == []
      ensures key.Some? && last ==> old(Contents()) == Contents() + [key.value]
      ensures key.Some? && !last ==> old(Contents()) == [key.value] + Contents()
    {
      hide Unique, IsIndex, Without;
      IndexEmpty(index, links);
      if |index| == 0 {
        return None;
      }
      ghost var i := if last then |links| - 1 else 0;
      assert At(end, links, -1) == At(end, links, |links|) == end;
      var link := if last then end.prev else end.next;
      assert link == At(end, links, i);
      IndexWithout(index, links, i);
      key := Some(link.key.value);
      var _ := Discard(link.key.value);
    }

    /** Two ordered sets are equal if they have the same keys in the same order. */
    method Equals(other: OrderedSet<K>) returns (same: bool)
      requires Valid() && other.Valid()
      ensures same <==> Contents() == other.Contents()
    {
      SizeOfMap();
      other.SizeOfMap();
      var mine := Iterate();
      var theirs := other.Iterate();
      same := |index| == |other.index| && mine == theirs;
    }

    /** The map has as many keys as the list has links. */
    lemma SizeOfMap()
      requires Valid()
      ensures |index| == |Contents()|
    {
      UniqueSize(Contents(), index.Keys);
    }
  }

  lemma {:induction false} UniqueSize<K(!new)>(keys: seq<K>, s: set<K>)
    requires Unique(keys) && forall k :: k in keys <==> k in s
    ensures |s| == |keys|
    decreases |keys|
  {
    if keys == [] {
      assert s == {};
    } else {
      assert keys[0] in keys;
      forall k
        ensures k in keys[1..] <==> k in s - {keys[0]}
      {
        assert k in keys <==> k == keys[0] || k in keys[1..];
      }
      UniqueSize(keys[1..], s - {keys[0]});
    }
  }
}

/** The hash of an object's members in src/nxt_conf.c:339-562, and the djb hash of its names. */
module JsonObject {
  import opened Bytes
  import opened JsonPrint
  import opened LevelHash
  import opened LevelHashEach

  const DJB_INIT: nat := 5381

  // hash * 33 in 32 bits, with the byte xored in
  function DjbAdd(hash: bv32, ch: Byte): bv32 { ((hash << 5) + hash) ^ (ch as bv32) }

  function DjbFrom(hash: bv32, name: seq<Byte>): bv32
    decreases |name|
  {
    if name == [] then hash else DjbFrom(DjbAdd(hash, name[0]), name[1..])
  }

  /** nxt_djb_hash */
  function Djb(name: seq<Byte>): nat { DjbFrom(DJB_INIT as bv32, name) as nat }

  method DjbHash(name: seq<Byte>) returns (hash: nat)
    ensures hash == Djb(name)
  {
    var h, i := DJB_INIT as bv32, 0;
    while i < |name|
      invariant 0 <= i <= |name| && DjbFrom(h, name[i..]) == DjbFrom(DJB_INIT as bv32, name)
    {
      h := DjbAdd(h, name[i]);
      i := i + 1;
    }
    hash := h as nat;
  }

  // The entry of the member parsed i-th.
  function EntryOf(name: seq<Byte>, i: nat): Entry { Entry(Djb(name), Item(name, i)) }

  function Entries(ms: seq<Member>): (es: seq<Entry>)
    ensures |es| == |ms| && forall i :: 0 <= i < |ms| ==> es[i] == EntryOf(ms[i].name, i)
  {
    seq(|ms|, i requires 0 <= i < |ms| => EntryOf(ms[i].name, i))
  }

  /** The hash holds exactly one entry for each member parsed so far. */
  ghost predicate Indexes(hash: Hash, ms: seq<Member>)
    reads hash
  {
    hash.Valid() && Items(hash.slot) == multiset(Entries(ms))
  }

  predicate Named(ms: seq<Member>, name: seq<Byte>) {
    exists i :: 0 <= i < |ms| && ms[i].name == name
  }

  lemma NamedOrAbsent(ms: seq<Member>, name: seq<Byte>)
    ensures Absent(multiset(Entries(ms)), Djb(name), name) <==> !Named(ms, name)
  {
    var es := Entries(ms);
    if i :| 0 <= i < |ms| && ms[i].name == name {
      assert es[i] in multiset(es) && Matches(es[i], Djb(name), name);
    }
    forall e | e in multiset(es) && Matches(e, Djb(name), name)
      ensures Named(ms, name)
    {
      var i :| 0 <= i < |es| && es[i] == e;
    }
  }

  /** nxt_conf_object_hash_add: declined exactly when the name was met before. */
  method AddName(hash: Hash, ghost ms: seq<Member>, name: seq<Byte>, count: nat) returns (rc: Status)
    requires Indexes(hash, ms) && count == |ms|
    modifies hash
    ensures hash.Valid() && (rc == Declined <==> Named(ms, name))
    ensures rc == Ok ==> forall v :: Indexes(hash, ms + [Member(name, v)])
    ensures rc != Ok ==> Indexes(hash, ms)
  {
    hide Items, Unique, WellFormed, Absent, Djb, Named;
    NamedOrAbsent(ms, name);
    var h := DjbHash(name);
    var out;
    rc, out := hash.Insert(h, Item(name, count), false);
    forall v
      ensures multiset(Entries(ms + [Member(name, v)])) == multiset(Entries(ms)) + multiset{EntryOf(name, count)}
    {
      OneMore(ms, name, v);
    }
  }

  lemma OneMore(ms: seq<Member>, name: seq<Byte>, v: Value)
    ensures multiset(Entries(ms + [Member(name, v)])) == multiset(Entries(ms)) + multiset{EntryOf(name, |ms|)}
  {
    hide EntryOf, Entries;
    var es, fs, e := Entries(ms), Entries(ms + [Member(name, v)]), EntryOf(name, |ms|);
    assert fs == es + [e];
  }

  // ---------- the walk

  function MemberAt(ms: seq<Member>, e: Entry): Member {
    if 0 <= e.item.data < |ms| then ms[e.item.data] else Member([], Value.Null)
  }

  function MembersAt(ms: seq<Member>, es: seq<Entry>): (r: seq<Member>)
    ensures |r| == |es| && forall i :: 0 <= i < |es| ==> r[i] == MemberAt(ms, es[i])
  {
    seq(|es|, i requires 0 <= i < |es| => MemberAt(ms, es[i]))
  }

  lemma TakeOut<T>(s: seq<T>, j: nat)
    requires j < |s|
    ensures multiset(s) == multiset(s[..j] + s[j + 1..]) + multiset{s[j]}
  {
    assert s == s[..j] + [s[j]] + s[j + 1..];
  }

  // The multiset of members selected does not depend on the order of the entries.
  lemma {:induction false} SelectsAlike(ms: seq<Member>, es: seq<Entry>, fs: seq<Entry>)
    requires multiset(es) == multiset(fs)
    ensures multiset(MembersAt(ms, es)) == multiset(MembersAt(ms, fs))
    decreases |es|
  {
    hide MemberAt, MembersAt;
    assert |multiset(es)| == |es| && |multiset(fs)| == |fs|;
    if es == [] {
      assert fs == [];
    } else {
      var j := Elsewhere(es, fs);
      var es', fs' := es[..0] + es[1..], fs[..j] + fs[j + 1..];
      SelectsAlike(ms, es', fs');
      Selected(ms, es, 0);
      Selected(ms, fs, j);
    }
  }

  // The first entry of one order stands somewhere in the other, and the rests are alike again.
  lemma Elsewhere(es: seq<Entry>, fs: seq<Entry>) returns (j: nat)
    requires multiset(es) == multiset(fs) && es != []
    ensures j < |fs| && fs[j] == es[0] && multiset(es[..0] + es[1..]) == multiset(fs[..j] + fs[j + 1..])
  {
    assert es[0] in multiset(es) && es[0] in fs;
    j :| 0 <= j < |fs| && fs[j] == es[0];
    TakeOut(es, 0);
    TakeOut(fs, j);
    LevelHash.Same(multiset(fs[..j] + fs[j + 1..]), multiset(es[..0] + es[1..]), multiset{es[0]});
  }

  lemma Selected(ms: seq<Member>, es: seq<Entry>, j: nat)
    requires j < |es|
    ensures multiset(MembersAt(ms, es)) == multiset(MembersAt(ms, es[..j] + es[j + 1..]))
      + multiset{MemberAt(ms, es[j])}
  {
    hide MemberAt;
    var all := MembersAt(ms, es);
    TakeOut(all, j);
    assert MembersAt(ms, es[..j] + es[j + 1..]) == all[..j] + all[j + 1..];
  }

  lemma HeadOf(order: seq<Entry>, n: nat, e: Entry, rest: seq<Entry>)
    requires n <= |order| && order[n..] == [e] + rest
    ensures n < |order| && order[n] == e && order[n + 1..] == rest
  {
    assert order[n..][0] == e && order[n..][1..] == rest;
  }

  lemma SelectsAll(ms: seq<Member>)
    ensures MembersAt(ms, Entries(ms)) == ms
  {
  }

  /**
   * The copy loop of nxt_conf_json_parse_object: the walk writes exactly `count` members, which is the room the object
   * has, and each parsed one once.
   */
  method CopyMembers(hash: Hash, ms: seq<Member>, count: nat) returns (members: array<Member>, written: nat)
    requires Indexes(hash, ms) && count == |ms|
    ensures fresh(members) && written == members.Length == count && multiset(members[..]) == multiset(ms)
  {
    hide Items, Order, Rest, WellFormed, Djb, Unique, Zeros;
    members := new Member[count](_ => Member([], Value.Null));
    var each := new Each();
    ghost var order := Order(hash.slot);
    WalkStart(hash.slot, ms, each.path);
    written := 0;
    while true
      invariant each.Between(hash.slot) && 0 <= written <= count
      invariant order[written..] == Rest(hash.slot, 0, each.path, each.at)
      invariant members[..written] == MembersAt(ms, order[..written])
      decreases count - written
    {
      var element := each.Next(hash.slot);
      if element.None? {
        assert |order[written..]| == 0 && order[..written] == order && members[..written] == members[..];
        break;
      }
      HeadOf(order, written, element.value, Rest(hash.slot, 0, each.path, each.at));
      members[written] := MemberAt(ms, element.value);
      written := written + 1;
    }
    SelectsAlike(ms, order, Entries(ms));
    SelectsAll(ms);
  }

  // A walk that has not begun has every entry before it.
  lemma WalkStart(s: LevelHash.Slot, ms: seq<Member>, path: seq<nat>)
    requires WellFormed(s, 0) && Items(s) == multiset(Entries(ms)) && path == seq(LEVELS, i => 0)
    ensures IsPath(path) && Zeros(path, 0) && PositionOk(s, 0, path, Fresh) && Rest(s, 0, path, Fresh) == Order(s)
    ensures multiset(Order(s)) == multiset(Entries(ms)) && |Order(s)| == |ms|
  {
    FromTheStart(s, 0, path);
    OrderItems(s);
    assert |multiset(Order(s))| == |Order(s)| && |multiset(Entries(ms))| == |ms|;
  }
}

/**
 * The class registries of the class-based CDC codecs: the module-level
 * dictionaries REQUESTS, RESPONSES (and REACTIONS) that map a message class
 * to its identifier, filled by `register_cdc_*` and searched by
 * `get_cdc_*_type` and `get_cdc_*_id`
 * (src/iqrf/transport/cdc_codec.py:107-190, src/iqrf/cdc/base_codec.py:40-89).
 *
 * A dictionary is kept as its items in insertion order, which is the order
 * `items()` visits them in.
 */
module CdcRegistry {
  import opened Bytes
  import opened Wrappers
  import opened CdcMessages

  type Entries = seq<(MessageType, seq<byte>)>

  /** The two ValueErrors of `register_cdc_*`. */
  datatype RegisterError = NotOfCategory | Duplicate

  /** `cls in REGISTRY`. */
  predicate Registered(entries: Entries, t: MessageType) {
    exists i :: 0 <= i < |entries| && entries[i].0 == t
  }

  /** Every class at most once: what `register_cdc_*` keeps true. */
  predicate UniqueTypes(entries: Entries) {
    forall i, j :: 0 <= i < j < |entries| ==> entries[i].0 != entries[j].0
  }

  /** Every identifier at most once: true of the tables built at import, not checked by registering. */
  predicate UniqueIds(entries: Entries) {
    forall i, j :: 0 <= i < j < |entries| ==> entries[i].1 != entries[j].1
  }

  /** `get_cdc_*_type(id)`: the first class registered with `id`. */
  function TypeFor(entries: Entries, id: seq<byte>): (r: Option<MessageType>)
    ensures r.None? <==> forall i :: 0 <= i < |entries| ==> entries[i].1 != id
    ensures r.Some? ==> exists i :: 0 <= i < |entries| && entries[i] == (r.value, id)
                                    && forall j :: 0 <= j < i ==> entries[j].1 != id
  {
    if |entries| == 0 then None
    else if entries[0].1 == id then Some(entries[0].0)
    else
      var r := TypeFor(entries[1..], id);
      assert forall i :: 0 < i < |entries| ==> entries[i] == entries[1..][i - 1];
      r
  }

  /** `get_cdc_*_id(type)`: the identifier the class was registered with. */
  function IdFor(entries: Entries, t: MessageType): (r: Option<seq<byte>>)
    ensures r.None? <==> !Registered(entries, t)
    ensures r.Some? ==> exists i :: 0 <= i < |entries| && entries[i] == (t, r.value)
                                    && forall j :: 0 <= j < i ==> entries[j].0 != t
  {
    if |entries| == 0 then None
    else if entries[0].0 == t then Some(entries[0].1)
    else
      var r := IdFor(entries[1..], t);
      assert forall i :: 0 < i < |entries| ==> entries[i] == entries[1..][i - 1];
      r
  }

  /** In a registry without repeated classes, the identifier of the class `get_cdc_*_type` finds is the one looked up. */
  lemma TypeForIdFor(entries: Entries, id: seq<byte>)
    requires UniqueTypes(entries) && TypeFor(entries, id).Some?
    ensures IdFor(entries, TypeFor(entries, id).value) == Some(id)
  {
    var t := TypeFor(entries, id).value;
    var i :| 0 <= i < |entries| && entries[i] == (t, id);
    var j :| 0 <= j < |entries| && entries[j] == (t, IdFor(entries, t).value)
             && forall k :: 0 <= k < j ==> entries[k].0 != t;
    assert i == j;
  }

  /** And with no repeated identifiers either, the class found by identifier is the class asked about. */
  lemma IdForTypeFor(entries: Entries, t: MessageType)
    requires UniqueIds(entries) && IdFor(entries, t).Some?
    ensures TypeFor(entries, IdFor(entries, t).value) == Some(t)
  {
    var id := IdFor(entries, t).value;
    var i :| 0 <= i < |entries| && entries[i] == (t, id);
    var j :| 0 <= j < |entries| && entries[j] == (TypeFor(entries, id).value, id)
             && forall k :: 0 <= k < j ==> entries[k].1 != id;
    assert i == j;
  }

  /**
   * An entry added at the end is found by `get_cdc_*_id` only for its own
   * class, and only when that class had no entry before.
   */
  lemma {:induction false} IdForAppend(entries: Entries, c: MessageType, id: seq<byte>, t: MessageType)
    ensures IdFor(entries + [(c, id)], t) ==
      if IdFor(entries, t).Some? then IdFor(entries, t) else if t == c then Some(id) else None
  {
    var e := entries + [(c, id)];
    if |entries| == 0 {
      assert e == [(c, id)];
    } else {
      assert e[0] == entries[0];
      assert e[1..] == entries[1..] + [(c, id)];
      IdForAppend(entries[1..], c, id, t);
    }
  }

  /**
   * Identifiers are not checked for repeats: a class registered later under
   * an identifier already in use is never found by `get_cdc_*_type`.
   */
  lemma TypeForShadowed(entries: Entries, c: MessageType, id: seq<byte>)
    requires TypeFor(entries, id).Some?
    ensures TypeFor(entries + [(c, id)], id) == TypeFor(entries, id)
  {
    var e := entries + [(c, id)];
    var t := TypeFor(entries, id).value;
    assert forall i :: 0 <= i < |entries| ==> e[i] == entries[i];
    var i :| 0 <= i < |entries| && entries[i] == (t, id) && forall j :: 0 <= j < i ==> entries[j].1 != id;
    var k :| 0 <= k < |e| && e[k] == (TypeFor(e, id).value, id) && forall j :: 0 <= j < k ==> e[j].1 != id;
    assert i == k;
  }

  /** A registration keeps the classes of a registry distinct when it adds a class not yet present. */
  lemma AppendUnique(entries: Entries, c: MessageType, id: seq<byte>)
    requires UniqueTypes(entries) && !Registered(entries, c)
    ensures UniqueTypes(entries + [(c, id)])
  {
    var e := entries + [(c, id)];
    assert forall i :: 0 <= i < |entries| ==> e[i] == entries[i];
  }

  /*
   * The registrations a module performs at import: each listed class
   * registered under its `Identifier`, in order, with the dictionary of its
   * category.
   */

  /** What the registry of category `c` holds after registering `types` in order (each new). */
  function Registrations(types: seq<MessageType>, c: Category): Entries {
    if |types| == 0 then []
    else
      var t := types[|types| - 1];
      Registrations(types[..|types| - 1], c) + (if CategoryOf(t) == c then [(t, Identifier(t))] else [])
  }

  /** Registering one more listed class appends its entry to the registry of its category only. */
  lemma RegistrationsStep(types: seq<MessageType>, i: nat, c: Category)
    requires i < |types|
    ensures Registrations(types[..i + 1], c) == Registrations(types[..i], c)
      + (if CategoryOf(types[i]) == c then [(types[i], Identifier(types[i]))] else [])
  {
    assert types[..i + 1][..i] == types[..i];
  }

  /** Every entry is a listed class of the category, under its identifier. */
  lemma {:induction false} RegistrationsEntries(types: seq<MessageType>, c: Category, i: int)
    requires 0 <= i < |Registrations(types, c)|
    ensures var e := Registrations(types, c)[i];
      e.0 in types && CategoryOf(e.0) == c && e.1 == Identifier(e.0)
  {
    var front := types[..|types| - 1];
    if i < |Registrations(front, c)| {
      RegistrationsEntries(front, c, i);
    }
  }

  /** `get_cdc_*_id` after the registrations: the identifier of each listed class of the category, else None. */
  lemma {:induction false} IdForRegistrations(types: seq<MessageType>, c: Category, t: MessageType)
    ensures IdFor(Registrations(types, c), t) ==
      if t in types && CategoryOf(t) == c then Some(Identifier(t)) else None
  {
    if |types| > 0 {
      var front := types[..|types| - 1];
      var last := types[|types| - 1];
      assert types == front + [last];
      assert t in types <==> t in front || t == last;
      IdForRegistrations(front, c, t);
      if CategoryOf(last) == c {
        IdForAppend(Registrations(front, c), last, Identifier(last), t);
      } else {
        assert Registrations(types, c) == Registrations(front, c) + [];
        assert Registrations(front, c) + [] == Registrations(front, c);
        assert t in types && CategoryOf(t) == c <==> t in front && CategoryOf(t) == c;
      }
    }
  }

  /** `get_cdc_*_type` after the registrations finds only a listed class of the category, by its identifier. */
  lemma TypeForRegistrations(types: seq<MessageType>, c: Category, id: seq<byte>)
    requires TypeFor(Registrations(types, c), id).Some?
    ensures var t := TypeFor(Registrations(types, c), id).value;
      t in types && CategoryOf(t) == c && Identifier(t) == id
  {
    var e := Registrations(types, c);
    var t := TypeFor(e, id).value;
    var i :| 0 <= i < |e| && e[i] == (t, id);
    RegistrationsEntries(types, c, i);
  }

  /** ... and it finds a listed class whose identifier no other listed class of the category shares. */
  lemma TypeForRegistrationsUnique(types: seq<MessageType>, c: Category, t: MessageType)
    requires t in types && CategoryOf(t) == c
    requires forall u :: u in types && CategoryOf(u) == c && Identifier(u) == Identifier(t) ==> u == t
    ensures TypeFor(Registrations(types, c), Identifier(t)) == Some(t)
  {
    IdForRegistrations(types, c, t);
    var e := Registrations(types, c);
    var i :| 0 <= i < |e| && e[i] == (t, Identifier(t));
    TypeForRegistrations(types, c, Identifier(t));
  }

  /** One of the module-level dictionaries, accepting classes of one category. */
  class Registry {
    var entries: Entries
    const category: Category

    /** Every class registered once, and each of the registry's category. */
    ghost predicate Valid()
      reads this
    {
      UniqueTypes(entries) && forall i :: 0 <= i < |entries| ==> CategoryOf(entries[i].0) == category
    }

    /** `REQUESTS = {}` (or RESPONSES, REACTIONS). */
    constructor(category: Category)
      ensures this.category == category && entries == [] && Valid()
    {
      this.category := category;
      entries := [];
    }

    /**
     * `register_cdc_*(cls, id)`: refuse a class of another category, refuse
     * a class already registered, and otherwise add exactly `cls -> id`.
     */
    method Register(cls: MessageType, id: seq<byte>) returns (r: Result<(), RegisterError>)
      requires Valid()
      modifies this
      ensures Valid()
      ensures CategoryOf(cls) != category ==> r == Failure(NotOfCategory) && entries == old(entries)
      ensures CategoryOf(cls) == category && Registered(old(entries), cls) ==>
        r == Failure(Duplicate) && entries == old(entries)
      ensures CategoryOf(cls) == category && !Registered(old(entries), cls) ==>
        r == Success(()) && entries == old(entries) + [(cls, id)]
    {
      if CategoryOf(cls) != category {
        return Failure(NotOfCategory);
      }
      if IdFor(entries, cls).Some? {
        return Failure(Duplicate);
      }
      AppendUnique(entries, cls, id);
      entries := entries + [(cls, id)];
      r := Success(());
    }

    /** `get_cdc_*_type(id)`: scan the items in order and return the first class with that identifier. */
    method GetType(id: seq<byte>) returns (t: Option<MessageType>)
      ensures t == TypeFor(entries, id)
    {
      for i := 0 to |entries|
        invariant TypeFor(entries[i..], id) == TypeFor(entries, id)
      {
        assert entries[i..][1..] == entries[i + 1..];
        if entries[i].1 == id {
          return Some(entries[i].0);
        }
      }
      return None;
    }

    /** `get_cdc_*_id(type)`: scan the items in order and return the identifier of that class. */
    method GetId(t: MessageType) returns (id: Option<seq<byte>>)
      ensures id == IdFor(entries, t)
    {
      for i := 0 to |entries|
        invariant IdFor(entries[i..], t) == IdFor(entries, t)
      {
        assert entries[i..][1..] == entries[i + 1..];
        if entries[i].0 == t {
          return Some(entries[i].1);
        }
      }
      return None;
    }
  }
}

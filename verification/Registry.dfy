/** The field registry of reflected message types: `Type.add` and `Type.remove` for plain fields,
    with the caches that `fieldsById` and `fieldsArray` keep. */
module Registry {
  import opened Options

  datatype Reserved = Ids(from: int, to: int) | Named(name: string)

  datatype Answer = Done | DuplicateName | DuplicateId | IdReserved | NameReserved | NotAMember

  /** What every JavaScript object literal inherits: `fields[name]` finds these too. */
  const INHERITED := {
    "constructor", "hasOwnProperty", "isPrototypeOf", "propertyIsEnumerable", "toLocaleString", "toString",
    "valueOf", "__proto__", "__defineGetter__", "__defineSetter__", "__lookupGetter__", "__lookupSetter__"}

  class Field {
    const name: string
    const id: int
    var parent: Type?
    var message: Type?

    constructor (name: string, id: int)
      ensures this.name == name && this.id == id && parent == null && message == null
    {
      this.name, this.id, parent, message := name, id, null, null;
    }
  }

  /** The properties of `type.fields` in key order, each standing under its own name. */
  type Fields = seq<Field>

  predicate Has(fields: Fields, name: string) {
    fields != [] && (fields[0].name == name || Has(fields[1..], name))
  }

  /** `fields[name]`, own properties only. */
  function Lookup(fields: Fields, name: string): Option<Field> {
    if fields == [] then None
    else if fields[0].name == name then Some(fields[0])
    else Lookup(fields[1..], name)
  }

  function Without(fields: Fields, name: string): Fields {
    if fields == [] then [] else (if fields[0].name == name then [] else [fields[0]]) + Without(fields[1..], name)
  }

  ghost predicate DistinctNames(fields: Fields) {
    forall i, j :: 0 <= i < j < |fields| ==> fields[i].name != fields[j].name
  }

  ghost predicate DistinctIds(fields: Fields) {
    forall i, j :: 0 <= i < j < |fields| ==> fields[i].id != fields[j].id
  }

  /** The table the fieldsById getter builds. */
  function ById(fields: Fields): map<int, Field> {
    if fields == [] then map[]
    else ById(fields[..|fields| - 1])[fields[|fields| - 1].id := fields[|fields| - 1]]
  }

  ghost predicate HasName(fields: Fields, name: string) {
    exists i :: 0 <= i < |fields| && fields[i].name == name
  }

  ghost predicate HasId(fields: Fields, id: int) {
    exists i :: 0 <= i < |fields| && fields[i].id == id
  }

  lemma {:induction false} HasAt(fields: Fields, name: string)
    ensures Has(fields, name) <==> HasName(fields, name)
  {
    if fields != [] {
      HasAt(fields[1..], name);
      if Has(fields[1..], name) {
        var i :| 0 <= i < |fields[1..]| && fields[1..][i].name == name;
        assert fields[i + 1].name == name;
      }
      if HasName(fields, name) {
        var i :| 0 <= i < |fields| && fields[i].name == name;
        assert i > 0 ==> fields[1..][i - 1].name == name;
      }
    }
  }

  /** The table has exactly the ids of the fields, and for distinct ids finds each field. */
  lemma {:induction false} ByIdAt(fields: Fields, id: int)
    ensures id in ById(fields) <==> exists i :: 0 <= i < |fields| && fields[i].id == id
    ensures id in ById(fields) ==> ById(fields)[id] in fields && ById(fields)[id].id == id
  {
    if fields != [] {
      var n := |fields| - 1;
      ByIdAt(fields[..n], id);
      if id == fields[n].id {
        assert fields[n].id == id;
      } else {
        assert id in ById(fields) <==> id in ById(fields[..n]);
        if i :| 0 <= i < |fields| && fields[i].id == id {
          assert fields[..n][i].id == id;
        }
        if id in ById(fields[..n]) {
          var i :| 0 <= i < |fields[..n]| && fields[..n][i].id == id;
          assert fields[i].id == id;
        }
      }
    }
  }

  /** Taking a field out keeps all others, in order. */
  lemma {:induction false} WithoutOne(fields: Fields, k: nat)
    requires DistinctNames(fields) && k < |fields|
    ensures Without(fields, fields[k].name) == fields[..k] + fields[k + 1..]
  {
    var f, rest := fields[0], fields[1..];
    assert DistinctNames(rest) by {
      assert forall i :: 0 <= i < |rest| ==> rest[i] == fields[i + 1];
    }
    if k == 0 {
      WithoutNone(rest, f.name);
    } else {
      assert rest[k - 1] == fields[k];
      WithoutOne(rest, k - 1);
      assert [f] + (rest[..k - 1] + rest[k..]) == fields[..k] + fields[k + 1..];
    }
  }

  lemma {:induction false} WithoutNone(fields: Fields, name: string)
    requires forall i :: 0 <= i < |fields| ==> fields[i].name != name
    ensures Without(fields, name) == fields
  {
    if fields != [] {
      WithoutNone(fields[1..], name);
    }
  }

  /** Among distinct names, looking up a field's name finds the field if it is there at all. */
  lemma {:induction false} LookupMember(fields: Fields, f: Field)
    requires DistinctNames(fields)
    ensures Lookup(fields, f.name) == Some(f) <==> f in fields
    ensures f in fields ==> Has(fields, f.name)
  {
    if fields != [] {
      var rest := fields[1..];
      assert DistinctNames(rest) by {
        assert forall i :: 0 <= i < |rest| ==> rest[i] == fields[i + 1];
      }
      LookupMember(rest, f);
      if f in rest {
        var i :| 0 <= i < |rest| && rest[i] == f;
        assert fields[i + 1] == f && fields[0].name != f.name;
      }
    }
  }

  /** Types and fields that belong together: every field has one owner at most, the type that its
      parent pointer names. */
  ghost predicate Consistent(types: set<Type>, all: set<Field>)
    reads types, all
  {
    && (forall t :: t in types ==> (forall f :: f in t.fields ==> f in all) && t.Sound())
    && (forall f :: f in all && f.parent != null ==> f.parent in types && f in f.parent.fields)
  }

  /** A field stands in one type at most. */
  lemma OneOwner(types: set<Type>, all: set<Field>, t: Type, t': Type, f: Field)
    requires Consistent(types, all) && t in types && t' in types
    requires f in t.fields && f in t'.fields
    ensures t == t' == f.parent
  {
  }

  /** The type definition reserves the field's id or its name. */
  ghost predicate Reserves(reserved: seq<Reserved>, field: Field) {
    Named(field.name) in reserved || InRange(reserved, field.id)
  }

  ghost predicate InRange(reserved: seq<Reserved>, id: int) {
    exists k :: 0 <= k < |reserved| && reserved[k].Ids? && reserved[k].from <= id <= reserved[k].to
  }

  /** No type holds a field that it reserves. */
  ghost predicate NoneReserved(types: set<Type>)
    reads types
  {
    forall t, f :: t in types && f in t.fields ==> !Reserves(t.reserved, f)
  }

  class Type {
    const reserved: seq<Reserved>
    var fields: Fields
    var fieldsById: Option<map<int, Field>>
    var fieldsArray: Option<seq<Field>>

    constructor (reserved: seq<Reserved>)
      ensures fields == [] && fieldsById == None && fieldsArray == None && this.reserved == reserved
      ensures Sound()
    {
      this.reserved, fields, fieldsById, fieldsArray := reserved, [], None, None;
    }

    /** Ids and names are distinct, every field points back to its type, and a cache that is
        filled is what would be rebuilt. */
    ghost predicate Sound()
      reads this, fields
    {
      && DistinctNames(fields) && DistinctIds(fields)
      && (forall f :: f in fields ==> f.parent == this)
      && (fieldsById.Some? ==> fieldsById.value == ById(fields))
      && (fieldsArray.Some? ==> fieldsArray.value == fields)
    }

    /** `get(name)` finds something. */
    predicate Taken(name: string)
      reads this
    {
      Has(fields, name) || name in INHERITED
    }

    /** The fieldsById getter; None stands for its throw, which leaves a table half filled. It
        throws exactly when the cache is empty and two fields share an id. */
    method GetFieldsById() returns (r: Option<map<int, Field>>)
      modifies this`fieldsById
      ensures old(fieldsById).Some? ==> r == fieldsById == old(fieldsById)
      ensures old(fieldsById).None? ==> (r.Some? <==> DistinctIds(fields))
      ensures old(fieldsById).None? && r.Some? ==> r == fieldsById == Some(ById(fields))
    {
      if fieldsById.Some? {
        return fieldsById;
      }
      var table: map<int, Field> := map[];
      for i := 0 to |fields|
        invariant table == ById(fields[..i]) && DistinctIds(fields[..i])
      {
        var field := fields[i];
        NextId(fields, i);
        if field.id in table {
          fieldsById := Some(table);
          return None;
        }
        assert fields[..i + 1][..i] == fields[..i];
        table := table[field.id := field];
      }
      assert fields[..|fields|] == fields;
      fieldsById := Some(table);
      r := fieldsById;
    }

    method GetFieldsArray() returns (r: seq<Field>)
      requires Sound()
      modifies this`fieldsArray
      ensures Sound() && r == fields
    {
      if fieldsArray.None? {
        fieldsArray := Some(fields);
      }
      r := fieldsArray.value;
    }

    method IsReservedId(id: int) returns (r: bool)
      ensures r <==> exists k :: 0 <= k < |reserved| && reserved[k].Ids? && reserved[k].from <= id <= reserved[k].to
    {
      for k := 0 to |reserved|
        invariant forall i :: 0 <= i < k ==> !(reserved[i].Ids? && reserved[i].from <= id <= reserved[i].to)
      {
        if reserved[k].Ids? && reserved[k].from <= id && reserved[k].to >= id {
          return true;
        }
      }
      r := false;
    }

    method IsReservedName(name: string) returns (r: bool)
      ensures r <==> Named(name) in reserved
    {
      for k := 0 to |reserved|
        invariant Named(name) !in reserved[..k]
      {
        if reserved[k] == Named(name) {
          return true;
        }
      }
      r := false;
    }

    /** Type.remove for a plain field: only the type it stands in accepts it. */
    method Remove(field: Field, ghost types: set<Type>, ghost all: set<Field>) returns (answer: Answer)
      requires Consistent(types, all) && this in types && field in all
      modifies this, field
      ensures Consistent(types, all)
      ensures answer == if old(field.parent) == this then Done else NotAMember
      ensures answer == Done ==> fields == Without(old(fields), field.name) && field.parent == null && field !in fields
      ensures answer != Done ==> unchanged(this) && unchanged(field)
      ensures field.message == old(field.message)
      ensures forall t, f :: t in types && f in t.fields ==> f in old(t.fields)
    {
      LookupMember(fields, field);
      if Lookup(fields, field.name) != Some(field) {
        return NotAMember;
      }
      RemoveKeeps(fields, field);
      Detach(field, types, all);
      answer := Done;
    }

    /** `delete fields[field.name]`, with the pointer and the caches. */
    method Detach(field: Field, ghost types: set<Type>, ghost all: set<Field>)
      requires Consistent(types, all) && this in types && field in fields
      modifies this, field
      ensures Consistent(types, all)
      ensures fields == Without(old(fields), field.name) && field.parent == null && field.message == old(field.message)
    {
      hide Without, Has, Lookup, ById;
      RemoveKeeps(fields, field);
      assert forall t :: t in types && t != this ==> field !in t.fields;
      fields := Without(fields, field.name);
      field.parent := null;
      ClearCache();
      assert forall t :: t in types && t != this ==> t.fields == old(t.fields) && t.Sound();
    }

    /** Why add refuses a field, if it does. */
    ghost function Refusal(field: Field): Answer
      reads this
    {
      if Taken(field.name) then DuplicateName
      else if HasId(fields, field.id) then DuplicateId
      else if InRange(reserved, field.id) then IdReserved
      else if Named(field.name) in reserved then NameReserved
      else Done
    }

    /** The checks of add; the throw inside the fieldsById getter is never reached. */
    method Check(field: Field) returns (answer: Answer)
      requires Sound()
      modifies this`fieldsById
      ensures Sound() && answer == Refusal(field)
      ensures answer == Done ==> !Reserves(reserved, field)
    {
      hide Has, ById;
      if Taken(field.name) {
        return DuplicateName;
      }
      var byId := GetFieldsById();
      ByIdAt(fields, field.id);
      if field.id in byId.value {
        return DuplicateId;
      }
      var reservedId := IsReservedId(field.id);
      if reservedId {
        return IdReserved;
      }
      var reservedName := IsReservedName(field.name);
      answer := if reservedName then NameReserved else Done;
    }

    /** Type.add for a plain field: it is taken from the type it stood in. */
    method Add(field: Field, ghost types: set<Type>, ghost all: set<Field>) returns (answer: Answer)
      requires Consistent(types, all) && this in types && field in all
      modifies this, field, field.parent
      ensures Consistent(types, all)
      ensures answer == old(Refusal(field))
      ensures answer == DuplicateName <==> field.name in INHERITED || HasName(old(fields), field.name)
      ensures answer == DuplicateId <==>
              answer != DuplicateName && HasId(old(fields), field.id)
      ensures answer == IdReserved <==>
              answer !in {DuplicateName, DuplicateId} && InRange(reserved, field.id)
      ensures answer == NameReserved <==>
              answer !in {DuplicateName, DuplicateId, IdReserved} && Named(field.name) in reserved
      ensures answer in {Done, DuplicateName, DuplicateId, IdReserved, NameReserved}
      ensures answer == Done ==> fields == old(fields) + [field] && field.parent == this && field.message == this
      ensures answer == Done && old(field.parent) != null ==>
                old(field.parent) != this
                && old(field.parent).fields ==
                     Without(old(if field.parent != null then field.parent.fields else []), field.name)
      ensures answer != Done ==> fields == old(fields) && unchanged(field)
      ensures answer != Done && old(field.parent) != null && old(field.parent) != this ==>
                old(field.parent).fields == old(if field.parent != null then field.parent.fields else [])
      ensures forall t, f :: t in types && f in t.fields ==> f in old(t.fields) || (t == this && f == field)
      ensures old(NoneReserved(types)) ==> NoneReserved(types)
    {
      hide Has, Without, ById, Lookup;
      LookupMember(fields, field);
      HasAt(fields, field.name);
      answer := Check(field);
      if answer != Done {
        return;
      }
      if field.parent != null {
        var removed := field.parent.Remove(field, types, all);
      }
      Attach(field, types, all);
    }

    /** `fields[field.name] = field`, with the pointers and the caches. */
    method Attach(field: Field, ghost types: set<Type>, ghost all: set<Field>)
      requires Consistent(types, all) && this in types && field in all && field.parent == null
      requires !Has(fields, field.name) && forall i :: 0 <= i < |fields| ==> fields[i].id != field.id
      modifies this, field
      ensures Consistent(types, all)
      ensures fields == old(fields) + [field] && field.parent == this && field.message == this
    {
      HasAt(fields, field.name);
      fields := fields + [field];
      field.message := this;
      field.parent := this;
      ClearCache();
    }

    method ClearCache()
      modifies this`fieldsById, this`fieldsArray
      ensures fieldsById == None && fieldsArray == None
    {
      fieldsById, fieldsArray := None, None;
    }
  }

  lemma RemoveKeeps(fields: Fields, f: Field)
    requires DistinctNames(fields) && DistinctIds(fields) && f in fields
    ensures var rest := Without(fields, f.name);
      && DistinctNames(rest) && DistinctIds(rest)
      && forall g :: g in rest <==> g in fields && g != f
  {
    var k :| 0 <= k < |fields| && fields[k] == f;
    WithoutOne(fields, k);
    hide Without;
    var rest := fields[..k] + fields[k + 1..];
    assert forall i :: 0 <= i < |rest| ==> rest[i] == fields[if i < k then i else i + 1];
    forall g ensures g in rest <==> g in fields && g != f {
      if g in fields && g != f {
        var i :| 0 <= i < |fields| && fields[i] == g;
        assert rest[if i < k then i else i - 1] == g;
      }
    }
  }

  lemma NextId(fields: Fields, i: nat)
    requires i < |fields|
    ensures fields[i].id in ById(fields[..i]) <==> exists j :: 0 <= j < i && fields[j].id == fields[i].id
  {
    ByIdAt(fields[..i], fields[i].id);
    if fields[i].id in ById(fields[..i]) {
      var j :| 0 <= j < |fields[..i]| && fields[..i][j].id == fields[i].id;
      assert fields[j].id == fields[i].id;
    }
    if j :| 0 <= j < i && fields[j].id == fields[i].id {
      assert fields[..i][j].id == fields[i].id;
    }
  }

  datatype Change =
    | Adding(t: Type, f: Field)
    | Removing(t: Type, f: Field)
    | ReadingIds(t: Type)
    | ReadingFields(t: Type)

  /** Any sequence of adds, removals and reads across types keeps them consistent, no read of
      fieldsById throws, and no type comes to hold a field that it reserves. */
  method Replay(changes: seq<Change>, ghost types: set<Type>, ghost all: set<Field>) returns (thrown: bool)
    requires Consistent(types, all)
    requires forall c :: c in changes ==> c.t in types && (c.Adding? || c.Removing? ==> c.f in all)
    modifies types, all
    ensures Consistent(types, all) && !thrown
    ensures old(NoneReserved(types)) ==> NoneReserved(types)
  {
    thrown := false;
    for i := 0 to |changes|
      invariant Consistent(types, all) && !thrown
      invariant old(NoneReserved(types)) ==> NoneReserved(types)
    {
      var c := changes[i];
      assert c in changes;
      match c {
        case Adding(t, f) => var _ := t.Add(f, types, all);
        case Removing(t, f) => var _ := t.Remove(f, types, all);
        case ReadingIds(t) =>
          var r := t.GetFieldsById();
          thrown := r.None?;
        case ReadingFields(t) => var _ := t.GetFieldsArray();
      }
    }
  }
}

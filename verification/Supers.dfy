/** The registry of user types: a cached table of superclasses for every type. */
module Supers {
  type Name = string

  const CONST := "const "

  /** The name of the const variant; strncat copies at most 120 characters. */
  function Const(name: Name): Name {
    CONST + if |name| <= 120 then name else name[..120]
  }

  lemma ConstInjective(a: Name, b: Name)
    requires |a| <= 120 && |b| <= 120 && Const(a) == Const(b)
    ensures a == b
  {
    assert Const(a)[|CONST|..] == a && Const(b)[|CONST|..] == b;
  }

  type Tables = map<Name, set<Name>>

  function TableOf(tables: Tables, name: Name): set<Name> {
    if name in tables then tables[name] else {}
  }

  /** What mapsuper makes of the tables. */
  function Mapped(tables: Tables, name: Name, base: Name): Tables {
    tables[name := TableOf(tables, name) + {base} + TableOf(tables, base)]
  }

  // ----- Class declarations as a graph -----

  datatype Decl = Decl(name: Name, base: Name)

  type Edges = set<(Name, Name)>

  /** What a declaration makes of the tables. */
  function Declared(tables: Tables, d: Decl): Tables {
    Mapped(Mapped(tables, Const(d.name), Const(d.base)), d.name, d.base)
  }

  /** T is a const T. */
  function TypeEdges(types: seq<Name>): Edges {
    set t | t in types :: (t, Const(t))
  }

  /** T is a base, and const T is a const base; an empty name is no base. */
  function DeclEdges(d: Decl): Edges {
    if d.base == "" then {} else {(d.name, d.base), (Const(d.name), Const(d.base))}
  }

  function AllEdges(types: seq<Name>, decls: seq<Decl>): Edges {
    if decls == [] then TypeEdges(types) else AllEdges(types, decls[..|decls| - 1]) + DeclEdges(decls[|decls| - 1])
  }

  ghost predicate Path(edges: Edges, p: seq<Name>) {
    |p| >= 2 && forall i :: 0 <= i < |p| - 1 ==> (p[i], p[i + 1]) in edges
  }

  /** b is a proper ancestor of a. */
  ghost predicate Reaches(edges: Edges, a: Name, b: Name) {
    exists p :: Path(edges, p) && p[0] == a && p[|p| - 1] == b
  }

  lemma ReachesFirst(edges: Edges, a: Name, b: Name)
    ensures Reaches(edges, a, b) <==> exists c :: (a, c) in edges && (c == b || Reaches(edges, c, b))
  {
    if Reaches(edges, a, b) {
      var p :| Path(edges, p) && p[0] == a && p[|p| - 1] == b;
      assert (p[0], p[1]) in edges;
      if |p| > 2 {
        var q := p[1..];
        forall i | 0 <= i < |q| - 1 ensures (q[i], q[i + 1]) in edges {
          assert (p[i + 1], p[i + 2]) in edges;
        }
        assert Path(edges, q) && q[0] == p[1] && q[|q| - 1] == b;
      }
    }
    if c :| (a, c) in edges && (c == b || Reaches(edges, c, b)) {
      if c == b {
        assert Path(edges, [a, b]);
      } else {
        var q :| Path(edges, q) && q[0] == c && q[|q| - 1] == b;
        var p := [a] + q;
        forall i | 0 <= i < |p| - 1 ensures (p[i], p[i + 1]) in edges {
          if i > 0 {
            assert (q[i - 1], q[i]) in edges;
          }
        }
        assert Path(edges, p) && p[0] == a && p[|p| - 1] == b;
      }
    }
  }

  // ----- Base-first programs -----

  /** Class names: not empty, short enough to be copied whole, and not const names themselves. */
  ghost predicate Proper(types: seq<Name>) {
    forall t :: t in types ==> t != "" && |t| <= 120 && !(CONST <= t)
  }

  /** Each class is declared once, and never after a class it is the base of. */
  ghost predicate BaseFirst(types: seq<Name>, decls: seq<Decl>) {
    forall i :: 0 <= i < |decls| ==> Declarable(types, decls[..i], decls[i])
  }

  ghost predicate Declarable(types: seq<Name>, done: seq<Decl>, d: Decl) {
    && d.name in types
    && (forall j :: 0 <= j < |done| ==> done[j].name != d.name && done[j].base != d.name)
    && (d.base == "" || (d.base in types && d.base != d.name))
  }

  ghost predicate Registered(types: seq<Name>, name: Name) {
    name in types || exists t :: t in types && name == Const(t)
  }

  /** The tables are the transitive closure of the graph, among registered types. */
  ghost predicate Closed(types: seq<Name>, edges: Edges, tables: Tables) {
    && (forall k :: k in tables ==> Registered(types, k))
    && (forall a, b :: Registered(types, a) && Registered(types, b) ==> (b in TableOf(tables, a) <==> Reaches(edges, a, b)))
  }

  // ----- A declaration keeps the tables closed -----

  /** Where the edges come from. */
  ghost predicate Kind(types: seq<Name>, decls: seq<Decl>, a: Name, c: Name) {
    || (a in types && c == Const(a))
    || (exists j :: 0 <= j < |decls| && (a, c) in DeclEdges(decls[j]))
  }

  lemma {:induction false} EdgeKinds(types: seq<Name>, decls: seq<Decl>, a: Name, c: Name)
    ensures (a, c) in AllEdges(types, decls) <==> Kind(types, decls, a, c)
  {
    if decls != [] {
      var n := |decls| - 1;
      EdgeKinds(types, decls[..n], a, c);
      if Kind(types, decls[..n], a, c) && !(a in types && c == Const(a)) {
        var j :| 0 <= j < n && (a, c) in DeclEdges(decls[..n][j]);
        assert (a, c) in DeclEdges(decls[j]);
      }
      if j :| 0 <= j < |decls| && (a, c) in DeclEdges(decls[j]) && j < n {
        assert (a, c) in DeclEdges(decls[..n][j]);
      }
    }
  }

  /** Every declared class is a type, and so is its base. */
  lemma DeclaredTypes(types: seq<Name>, decls: seq<Decl>, j: nat)
    requires BaseFirst(types, decls) && j < |decls|
    ensures decls[j].name in types
    ensures decls[j].base != "" ==> decls[j].base in types
  {
    assert Declarable(types, decls[..j], decls[j]);
  }

  /** A class not declared yet, nor the base of a declared one, has no edges but the one to its const variant. */
  lemma UndeclaredEdges(types: seq<Name>, done: seq<Decl>, name: Name, a: Name, c: Name)
    requires Proper(types) && BaseFirst(types, done) && name in types
    requires forall j :: 0 <= j < |done| ==> done[j].name != name && done[j].base != name
    requires (a, c) in AllEdges(types, done)
    ensures a == name ==> c == Const(name)
    ensures a != Const(name) && c != name
    ensures c == Const(name) ==> a == name
  {
    EdgeKinds(types, done, a, c);
    if a in types && c == Const(a) {
      if c == Const(name) {
        ConstInjective(a, name);
      }
    } else {
      var j :| 0 <= j < |done| && (a, c) in DeclEdges(done[j]);
      DeclaredTypes(types, done, j);
      if a == Const(name) && a == Const(done[j].name) {
        ConstInjective(name, done[j].name);
      }
      if c == Const(name) && c == Const(done[j].base) {
        ConstInjective(name, done[j].base);
      }
    }
  }

  lemma {:induction false} PathGrows(e: Edges, e': Edges, a: Name, b: Name)
    requires e <= e' && Reaches(e, a, b)
    ensures Reaches(e', a, b)
  {
    var p :| Path(e, p) && p[0] == a && p[|p| - 1] == b;
    assert Path(e', p);
  }

  /** New edges that leave from two names only do not show on paths that never come to them. */
  lemma {:induction false} PathStays(e: Edges, e': Edges, t: Name, ct: Name, p: seq<Name>)
    requires Path(e', p) && p[0] != t && p[0] != ct
    requires forall a, c :: (a, c) in e' && a != t && a != ct ==> (a, c) in e && c != t && c != ct
    ensures Path(e, p)
    decreases |p|
  {
    assert (p[0], p[1]) in e';
    if |p| > 2 {
      var q := p[1..];
      forall i | 0 <= i < |q| - 1 ensures (q[i], q[i + 1]) in e' {
        assert (p[i + 1], p[i + 2]) in e';
      }
      PathStays(e, e', t, ct, q);
      forall i | 0 <= i < |p| - 1 ensures (p[i], p[i + 1]) in e {
        if i > 0 {
          assert (q[i - 1], q[i]) in e;
        }
      }
    }
  }

  lemma OthersStay(e: Edges, e': Edges, t: Name, ct: Name, a: Name, b: Name)
    requires e <= e' && a != t && a != ct
    requires forall a, c :: (a, c) in e' && a != t && a != ct ==> (a, c) in e && c != t && c != ct
    ensures Reaches(e', a, b) <==> Reaches(e, a, b)
  {
    if Reaches(e, a, b) {
      PathGrows(e, e', a, b);
    }
    if Reaches(e', a, b) {
      var p :| Path(e', p) && p[0] == a && p[|p| - 1] == b;
      PathStays(e, e', t, ct, p);
    }
  }

  /** The const variant of a newly declared class reaches the const variant of its base and what that reaches. */
  lemma NewConst(types: seq<Name>, done: seq<Decl>, d: Decl, b: Name)
    requires Proper(types) && BaseFirst(types, done) && Declarable(types, done, d)
    ensures var e := AllEdges(types, done);
      Reaches(e + DeclEdges(d), Const(d.name), b) <==> d.base != "" && (b == Const(d.base) || Reaches(e, Const(d.base), b))
  {
    var e, cb := AllEdges(types, done), Const(d.base);
    var e' := e + DeclEdges(d);
    ReachesFirst(e', Const(d.name), b);
    NoOthers(types, done, d);
    if d.base != "" {
      BaseApart(types, done, d);
      OthersStay(e, e', d.name, Const(d.name), cb, b);
      assert (Const(d.name), cb) in e';
    }
    forall c | (Const(d.name), c) in e' ensures d.base != "" && c == cb {
      if (Const(d.name), c) in e {
        UndeclaredEdges(types, done, d.name, Const(d.name), c);
      }
    }
  }

  /** The new class itself reaches its const variant, its base, and what these reach. */
  lemma NewType(types: seq<Name>, done: seq<Decl>, d: Decl, b: Name)
    requires Proper(types) && BaseFirst(types, done) && Declarable(types, done, d)
    ensures var e := AllEdges(types, done); var e' := e + DeclEdges(d);
      Reaches(e', d.name, b) <==>
        || b == Const(d.name) || Reaches(e', Const(d.name), b)
        || (d.base != "" && (b == d.base || Reaches(e, d.base, b)))
  {
    var e, ct := AllEdges(types, done), Const(d.name);
    var e' := e + DeclEdges(d);
    ReachesFirst(e', d.name, b);
    NoOthers(types, done, d);
    if d.base != "" {
      BaseApart(types, done, d);
      OthersStay(e, e', d.name, ct, d.base, b);
      assert (d.name, d.base) in e';
    }
    EdgeKinds(types, done, d.name, ct);
    assert (d.name, ct) in e';
    forall c | (d.name, c) in e' ensures c == ct || (d.base != "" && c == d.base) {
      if (d.name, c) in e {
        UndeclaredEdges(types, done, d.name, d.name, c);
      }
    }
  }

  lemma NoOthers(types: seq<Name>, done: seq<Decl>, d: Decl)
    requires Proper(types) && BaseFirst(types, done) && Declarable(types, done, d)
    ensures var e := AllEdges(types, done);
      forall a, c :: (a, c) in e + DeclEdges(d) && a != d.name && a != Const(d.name) ==>
        (a, c) in e && c != d.name && c != Const(d.name)
  {
    var e := AllEdges(types, done);
    forall a, c | (a, c) in e + DeclEdges(d) && a != d.name && a != Const(d.name)
      ensures (a, c) in e && c != d.name && c != Const(d.name)
    {
      UndeclaredEdges(types, done, d.name, a, c);
    }
  }

  /** Base, class and their const variants are four different names. */
  lemma BaseApart(types: seq<Name>, done: seq<Decl>, d: Decl)
    requires Proper(types) && BaseFirst(types, done) && Declarable(types, done, d) && d.base != ""
    ensures d.base in types && d.base != d.name && d.base != Const(d.name)
    ensures Const(d.base) != d.name && Const(d.base) != Const(d.name)
    ensures (d.base, Const(d.base)) in AllEdges(types, done)
  {
    EdgeKinds(types, done, d.base, Const(d.base));
    if Const(d.base) == Const(d.name) {
      ConstInjective(d.base, d.name);
    }
  }

  /** What the tables of a class and of its const variant are after its declaration. */
  lemma DeclareCloses(types: seq<Name>, done: seq<Decl>, d: Decl, tables: Tables)
    requires Proper(types) && BaseFirst(types, done) && Declarable(types, done, d)
    requires Closed(types, AllEdges(types, done), tables)
    ensures Closed(types, AllEdges(types, done + [d]), Declared(tables, d))
  {
    var e, ct, cb := AllEdges(types, done), Const(d.name), Const(d.base);
    var e' := AllEdges(types, done + [d]);
    var t1 := Mapped(tables, ct, cb);
    var t2 := Mapped(t1, d.name, d.base);
    assert (done + [d])[..|done|] == done && e' == e + DeclEdges(d);
    NoOthers(types, done, d);
    forall a, b | Registered(types, a) && Registered(types, b)
      ensures b in TableOf(t2, a) <==> Reaches(e', a, b)
    {
      if a == ct {
        ConstTable(types, done, d, tables, b);
      } else if a == d.name {
        TypeTable(types, done, d, tables, b);
      } else {
        OthersStay(e, e', d.name, ct, a, b);
      }
    }
  }

  lemma Unnamed(types: seq<Name>)
    requires Proper(types)
    ensures !Registered(types, "") && !Registered(types, Const(""))
  {
    forall t | t in types ensures Const(t) != Const("") {
      if Const(t) == Const("") {
        ConstInjective(t, "");
      }
    }
  }

  lemma ConstTable(types: seq<Name>, done: seq<Decl>, d: Decl, tables: Tables, b: Name)
    requires Proper(types) && BaseFirst(types, done) && Declarable(types, done, d) && Registered(types, b)
    requires Closed(types, AllEdges(types, done), tables)
    ensures b in TableOf(Mapped(tables, Const(d.name), Const(d.base)), Const(d.name))
      <==> Reaches(AllEdges(types, done) + DeclEdges(d), Const(d.name), b)
  {
    var e, ct := AllEdges(types, done), Const(d.name);
    NewConst(types, done, d, b);
    Unnamed(types);
    ReachesFirst(e, ct, b);
    assert Registered(types, ct);
    if c :| (ct, c) in e {
      UndeclaredEdges(types, done, d.name, ct, c);
    }
    if d.base != "" {
      BaseApart(types, done, d);
      assert Registered(types, Const(d.base));
    }
  }

  lemma TypeTable(types: seq<Name>, done: seq<Decl>, d: Decl, tables: Tables, b: Name)
    requires Proper(types) && BaseFirst(types, done) && Declarable(types, done, d) && Registered(types, b)
    requires Closed(types, AllEdges(types, done), tables)
    ensures b in TableOf(Declared(tables, d), d.name)
      <==> Reaches(AllEdges(types, done) + DeclEdges(d), d.name, b)
  {
    var e, ct := AllEdges(types, done), Const(d.name);
    NewType(types, done, d, b);
    NewConst(types, done, d, b);
    Unnamed(types);
    OldTable(types, done, d, b);
    assert Registered(types, d.name);
    if d.base != "" {
      BaseApart(types, done, d);
      assert Registered(types, d.base);
      if Reaches(e, Const(d.base), b) {
        ReachesFirst(e, d.base, b);
      }
      ReachesFirst(e, d.base, Const(d.base));
    }
  }

  /** Before its declaration a class reaches its const variant only. */
  lemma OldTable(types: seq<Name>, done: seq<Decl>, d: Decl, b: Name)
    requires Proper(types) && BaseFirst(types, done) && Declarable(types, done, d)
    ensures Reaches(AllEdges(types, done), d.name, b) <==> b == Const(d.name)
  {
    var e, ct := AllEdges(types, done), Const(d.name);
    ReachesFirst(e, d.name, b);
    ReachesFirst(e, ct, b);
    EdgeKinds(types, done, d.name, ct);
    forall c | (d.name, c) in e ensures c == ct {
      UndeclaredEdges(types, done, d.name, d.name, c);
    }
    if c :| (ct, c) in e {
      UndeclaredEdges(types, done, d.name, ct, c);
    }
  }

  // ----- The registry -----

  /** The lua_next loop of mapsuper, in whatever order it meets the keys. */
  method CopyKeys(table0: set<Name>, from: set<Name>) returns (table: set<Name>)
    ensures table == table0 + from
  {
    table := table0;
    var left := from;
    while left != {}
      invariant left <= from && table == table0 + (from - left)
      decreases |left|
    {
      var key :| key in left;
      table := table + {key};
      left := left - {key};
    }
  }

  class Registry {
    var types: set<Name> // the names that have a metatable
    var supers: Tables

    ghost predicate Valid()
      reads this
    {
      forall k :: k in supers ==> k in types
    }

    constructor ()
      ensures Valid() && types == {} && supers == map[]
    {
      types, supers := {}, map[];
    }

    /** tolua_newmetatable: false when the name has one already. */
    method NewMetatable(name: Name) returns (r: bool)
      modifies `types
      ensures r <==> name !in old(types)
      ensures types == old(types) + {name}
    {
      r := name !in types;
      types := types + {name};
    }

    /** mapsuper: the base, and everything copied from the table of the base, key by key in any order. */
    method MapSuper(name: Name, base: Name)
      requires Valid() && name in types
      modifies `supers
      ensures Valid() && supers == Mapped(old(supers), name, base)
    {
      if name !in supers {
        supers := supers[name := {}];
      }
      var table := supers[name] + {base};
      supers := supers[name := table];
      if base in supers {
        table := CopyKeys(table, supers[base]);
        supers := supers[name := table];
      }
      assert table == TableOf(old(supers), name) + {base} + TableOf(old(supers), base);
      assert supers == old(supers)[name := table];
    }

    /** tolua_usertype. */
    method Usertype(ty: Name)
      requires Valid()
      modifies this
      ensures Valid()
      ensures types == old(types) + {Const(ty)} + if Const(ty) in old(types) then {} else {ty}
      ensures supers ==
        if Const(ty) in old(types) || ty in old(types) || ty == Const(ty) then old(supers) else Mapped(old(supers), ty, Const(ty))
    {
      var r := NewMetatable(Const(ty));
      if r {
        r := NewMetatable(ty);
        if r {
          MapSuper(ty, Const(ty));
        }
      }
    }

    /** tolua_cclass, as far as the tables go. */
    method Cclass(name: Name, base: Name)
      requires Valid() && name in types && Const(name) in types
      modifies `supers
      ensures Valid() && supers == Declared(old(supers), Decl(name, base))
    {
      MapSuper(Const(name), Const(base));
      MapSuper(name, base);
    }

    /**
     tolua_fast_isa, for a program's types: whether b is a or an ancestor of it. The first type needs a table;
     a const type has one once its class is declared.
     */
    method FastIsa(a: Name, b: Name, ghost types: seq<Name>, ghost decls: seq<Decl>) returns (result: bool)
      requires Closed(types, AllEdges(types, decls), supers) && Registered(types, a) && Registered(types, b)
      requires a == b || a in supers
      ensures result <==> a == b || Reaches(AllEdges(types, decls), a, b)
    {
      if a == b {
        return true;
      }
      result := b in supers[a];
    }

    /** lua_isusertype, for an object whose metatable is that of tn; a type without a table has no ancestors. */
    method IsUsertype(tn: Name, ty: Name, ghost types: seq<Name>, ghost decls: seq<Decl>) returns (result: bool)
      requires Closed(types, AllEdges(types, decls), supers) && Registered(types, tn) && Registered(types, ty)
      ensures result <==> tn == ty || Reaches(AllEdges(types, decls), tn, ty)
    {
      if tn == ty {
        return true;
      }
      result := tn in supers && ty in supers[tn];
    }
  }

  // ----- Registering a whole program -----

  /** After the types are registered, each has its const variant in its table and nothing else. */
  ghost predicate Fresh(done: seq<Name>, types: set<Name>, supers: Tables) {
    && (forall n :: n in types <==> Registered(done, n))
    && (forall n :: n in supers <==> n in done)
    && (forall n :: n in done ==> supers[n] == {Const(n)})
  }

  lemma Prefix(types: seq<Name>, done: seq<Name>, ty: Name)
    requires done + [ty] <= types
    ensures ty in types && forall n :: n in done ==> n in types
  {
    assert types[|done|] == ty;
    forall n | n in done ensures n in types {
      var i :| 0 <= i < |done| && done[i] == n;
      assert (done + [ty])[i] == types[i];
    }
  }

  lemma FreshNext(types: seq<Name>, done: seq<Name>, ty: Name, names: set<Name>, supers: Tables)
    requires Proper(types) && done + [ty] <= types && Fresh(done, names, supers)
    ensures ty in types && ty != Const(ty)
    ensures Fresh(done + [ty], names + {Const(ty)} + (if Const(ty) in names then {} else {ty}),
                  if Const(ty) in names || ty in names then supers else Mapped(supers, ty, Const(ty)))
  {
    Prefix(types, done, ty);
    if Const(ty) in names {
      if t :| t in done && Const(t) == Const(ty) {
        ConstInjective(t, ty);
      }
      assert ty in done;
    }
    forall n ensures Registered(done + [ty], n) <==> Registered(done, n) || n == ty || n == Const(ty) {
      assert n == Const(ty) ==> ty in done + [ty];
    }
  }

  lemma FreshCloses(types: seq<Name>, names: set<Name>, supers: Tables)
    requires Proper(types) && Fresh(types, names, supers)
    ensures Closed(types, AllEdges(types, []), supers)
  {
    var e := AllEdges(types, []);
    forall a, b | Registered(types, a) && Registered(types, b)
      ensures b in TableOf(supers, a) <==> Reaches(e, a, b)
    {
      ReachesFirst(e, a, b);
      ReachesFirst(e, Const(a), b);
      assert a in types ==> (a, Const(a)) in e;
    }
  }

  /** Which types have a table: all of them, and the const variants of the declared classes. */
  ghost predicate Tabled(types: seq<Name>, decls: seq<Decl>, supers: Tables) {
    && (forall t :: t in types ==> t in supers)
    && (forall t :: t in types ==> (Const(t) in supers <==> exists j :: 0 <= j < |decls| && decls[j].name == t))
  }

  lemma FreshTabled(types: seq<Name>, names: set<Name>, supers: Tables)
    requires Proper(types) && Fresh(types, names, supers)
    ensures Tabled(types, [], supers)
  {
  }

  lemma DeclareTabled(types: seq<Name>, done: seq<Decl>, d: Decl, tables: Tables)
    requires Proper(types) && Declarable(types, done, d) && Tabled(types, done, tables)
    ensures Tabled(types, done + [d], Declared(tables, d))
  {
    var decls, supers := done + [d], Declared(tables, d);
    forall t | t in types ensures Const(t) in supers <==> exists j :: 0 <= j < |decls| && decls[j].name == t {
      if Const(t) == Const(d.name) {
        ConstInjective(t, d.name);
        assert decls[|done|].name == t;
      }
      if j :| 0 <= j < |done| && done[j].name == t {
        assert decls[j].name == t;
      }
    }
  }

  /**
   All usertypes registered, then all classes declared, bases first: every table is exactly the set of proper
   ancestors of its type, so that looking a type up in it decides inheritance.
   */
  method Register(types: seq<Name>, decls: seq<Decl>) returns (r: Registry)
    requires Proper(types) && BaseFirst(types, decls)
    ensures Closed(types, AllEdges(types, decls), r.supers) && Tabled(types, decls, r.supers)
  {
    hide Closed, Fresh, Mapped, Proper, AllEdges, Tabled;
    r := new Registry();
    var i := 0;
    NothingFresh();
    while i < |types|
      invariant 0 <= i <= |types| && fresh(r) && r.Valid() && Fresh(types[..i], r.types, r.supers)
    {
      assert types[..i + 1] == types[..i] + [types[i]];
      FreshNext(types, types[..i], types[i], r.types, r.supers);
      r.Usertype(types[i]);
      i := i + 1;
    }
    assert types[..i] == types;
    FreshCloses(types, r.types, r.supers);
    FreshNames(types, r.types, r.supers);
    FreshTabled(types, r.types, r.supers);
    i := 0;
    while i < |decls|
      invariant 0 <= i <= |decls| && fresh(r) && r.Valid()
      invariant forall t :: t in types ==> t in r.types && Const(t) in r.types
      invariant Closed(types, AllEdges(types, decls[..i]), r.supers) && Tabled(types, decls[..i], r.supers)
    {
      assert decls[..i + 1] == decls[..i] + [decls[i]];
      assert Declarable(types, decls[..i], decls[i]);
      FirstDecls(types, decls, i);
      DeclareCloses(types, decls[..i], decls[i], r.supers);
      DeclareTabled(types, decls[..i], decls[i], r.supers);
      r.Cclass(decls[i].name, decls[i].base);
      i := i + 1;
    }
    assert decls[..i] == decls;
  }

  /** What further declarations make of the tables. */
  function AllDeclared(tables: Tables, ds: seq<Decl>): Tables
    decreases |ds|
  {
    if ds == [] then tables else AllDeclared(Declared(tables, ds[0]), ds[1..])
  }

  /** A table changes with the declaration of its own class only. */
  lemma {:induction false} OthersKept(tables: Tables, ds: seq<Decl>, c: Name)
    requires forall i :: 0 <= i < |ds| ==> ds[i].name != c && Const(ds[i].name) != c
    ensures TableOf(AllDeclared(tables, ds), c) == TableOf(tables, c)
    decreases |ds|
  {
    if ds != [] {
      OthersKept(Declared(tables, ds[0]), ds[1..], c);
    }
  }

  /** Bases must come first: a class declared before its base misses for good what the base inherits later. */
  lemma LateBase(types: seq<Name>, names: set<Name>, tables: Tables, a: Name, b: Name, c: Name, later: seq<Decl>)
    requires Proper(types) && Fresh(types, names, tables) && a in types && b in types && c in types
    requires a != b && b != c && a != c && forall i :: 0 <= i < |later| ==> later[i].name in types && later[i].name != c
    ensures var late := [Decl(c, b), Decl(b, a)];
      && Reaches(AllEdges(types, late), c, a)
      && a !in TableOf(AllDeclared(Declared(Declared(tables, late[0]), late[1]), later), c)
  {
    LateReaches(types, a, b, c);
    LateTable(types, names, tables, a, b, c);
    ConstApart(types, a, b, c);
    hide Const, Declared, AllEdges, TableOf, Fresh, Reaches;
    OthersKept(Declared(Declared(tables, Decl(c, b)), Decl(b, a)), later, c);
  }

  lemma LateReaches(types: seq<Name>, a: Name, b: Name, c: Name)
    requires a != "" && b != ""
    ensures Reaches(AllEdges(types, [Decl(c, b), Decl(b, a)]), c, a)
  {
    hide Const;
    var late := [Decl(c, b), Decl(b, a)];
    assert late[..1] == [Decl(c, b)];
    assert (c, b) in AllEdges(types, [Decl(c, b)]) && (c, b) in AllEdges(types, late) && (b, a) in AllEdges(types, late);
    assert Path(AllEdges(types, late), [c, b, a]);
  }

  lemma LateTable(types: seq<Name>, names: set<Name>, tables: Tables, a: Name, b: Name, c: Name)
    requires Proper(types) && Fresh(types, names, tables) && a in types && b in types && c in types
    requires a != b && b != c && a != c
    ensures a !in TableOf(Declared(Declared(tables, Decl(c, b)), Decl(b, a)), c)
  {
    ConstApart(types, a, b, c);
    hide Const;
  }

  lemma ConstApart(types: seq<Name>, a: Name, b: Name, c: Name)
    requires Proper(types) && a in types && b in types && c in types
    ensures forall n :: Const(n) !in {a, b, c}
  {
  }

  lemma NothingFresh()
    ensures Fresh([], {}, map[])
  {
  }

  lemma FreshNames(types: seq<Name>, names: set<Name>, supers: Tables)
    requires Fresh(types, names, supers)
    ensures forall t :: t in types ==> t in names && Const(t) in names
  {
    forall t | t in types ensures t in names && Const(t) in names {
      assert Registered(types, t) && Registered(types, Const(t));
    }
  }

  lemma FirstDecls(types: seq<Name>, decls: seq<Decl>, n: nat)
    requires BaseFirst(types, decls) && n <= |decls|
    ensures BaseFirst(types, decls[..n])
  {
    forall i | 0 <= i < n ensures Declarable(types, decls[..n][..i], decls[..n][i]) {
      assert decls[..n][..i] == decls[..i];
    }
  }

  // ----- What the graph means -----

  /** The classes and their bases alone. */
  function BaseEdges(decls: seq<Decl>): Edges {
    if decls == [] then {}
    else
      var d := decls[|decls| - 1];
      BaseEdges(decls[..|decls| - 1]) + if d.base == "" then {} else {(d.name, d.base)}
  }

  /** b is a base of a, directly or not. */
  ghost predicate Inherits(decls: seq<Decl>, a: Name, b: Name) {
    Reaches(BaseEdges(decls), a, b)
  }

  lemma {:induction false} BaseEdgesAre(decls: seq<Decl>, a: Name, b: Name)
    ensures (a, b) in BaseEdges(decls) <==> exists j :: 0 <= j < |decls| && decls[j].base != "" && decls[j] == Decl(a, b)
  {
    if decls != [] {
      var n := |decls| - 1;
      BaseEdgesAre(decls[..n], a, b);
      if j :| 0 <= j < |decls| && decls[j].base != "" && decls[j] == Decl(a, b) {
        assert j < n ==> decls[..n][j] == decls[j];
      }
      if (a, b) in BaseEdges(decls[..n]) {
        var j :| 0 <= j < n && decls[..n][j].base != "" && decls[..n][j] == Decl(a, b);
        assert decls[j] == Decl(a, b);
      }
    }
  }

  /** Every edge is from a type to its const variant, from a class to its base, or between the const variants of these. */
  lemma EdgeMeans(types: seq<Name>, decls: seq<Decl>, a: Name, c: Name)
    ensures (a, c) in AllEdges(types, decls) <==>
      || (a in types && c == Const(a))
      || (a, c) in BaseEdges(decls)
      || (exists t, b :: (t, b) in BaseEdges(decls) && a == Const(t) && c == Const(b))
  {
    EdgeKinds(types, decls, a, c);
    BaseEdgesAre(decls, a, c);
    if j :| 0 <= j < |decls| && (a, c) in DeclEdges(decls[j]) {
      BaseEdgesAre(decls, decls[j].name, decls[j].base);
    }
    if t, b :| (t, b) in BaseEdges(decls) && a == Const(t) && c == Const(b) {
      BaseEdgesAre(decls, t, b);
    }
  }

  lemma BaseTypes(types: seq<Name>, decls: seq<Decl>, a: Name, b: Name)
    requires BaseFirst(types, decls) && (a, b) in BaseEdges(decls)
    ensures a in types && b in types
  {
    BaseEdgesAre(decls, a, b);
    var j :| 0 <= j < |decls| && decls[j].base != "" && decls[j] == Decl(a, b);
    DeclaredTypes(types, decls, j);
  }

  lemma TypesNotConst(types: seq<Name>, a: Name, t: Name)
    requires Proper(types) && a in types
    ensures a != Const(t)
  {
  }

  /** Out of a const variant lead only the const variants of the bases. */
  lemma ConstEdge(types: seq<Name>, decls: seq<Decl>, a: Name, c: Name)
    requires Proper(types) && BaseFirst(types, decls) && a in types && (Const(a), c) in AllEdges(types, decls)
    ensures exists b :: (a, b) in BaseEdges(decls) && c == Const(b)
  {
    EdgeMeans(types, decls, Const(a), c);
    if Const(a) in types {
      TypesNotConst(types, Const(a), a);
    }
    if (Const(a), c) in BaseEdges(decls) {
      BaseTypes(types, decls, Const(a), c);
    }
    var t, b :| (t, b) in BaseEdges(decls) && Const(a) == Const(t) && c == Const(b);
    BaseTypes(types, decls, t, b);
    ConstInjective(a, t);
  }

  lemma {:induction false} ConstPath(types: seq<Name>, decls: seq<Decl>, p: seq<Name>, a: Name)
    requires Proper(types) && BaseFirst(types, decls) && a in types
    requires Path(AllEdges(types, decls), p) && p[0] == Const(a)
    ensures exists c :: c in types && p[|p| - 1] == Const(c) && Inherits(decls, a, c)
    decreases |p|
  {
    hide AllEdges, Const, BaseEdges, Proper, BaseFirst;
    assert (p[0], p[1]) in AllEdges(types, decls);
    ConstEdge(types, decls, a, p[1]);
    var b :| (a, b) in BaseEdges(decls) && p[1] == Const(b);
    BaseTypes(types, decls, a, b);
    ReachesFirst(BaseEdges(decls), a, b);
    if |p| > 2 {
      PathTail(AllEdges(types, decls), p);
      ConstPath(types, decls, p[1..], b);
      var c :| c in types && p[1..][|p| - 2] == Const(c) && Inherits(decls, b, c);
      ReachesFirst(BaseEdges(decls), a, c);
    }
  }

  lemma PathTail(edges: Edges, p: seq<Name>)
    requires Path(edges, p) && |p| > 2
    ensures Path(edges, p[1..])
  {
    forall i | 0 <= i < |p[1..]| - 1 ensures (p[1..][i], p[1..][i + 1]) in edges {
      assert (p[i + 1], p[i + 2]) in edges;
    }
  }

  /** From a type: a base of it, or the const variant of itself or of a base. */
  ghost predicate Leads(types: seq<Name>, decls: seq<Decl>, a: Name, b: Name) {
    || Inherits(decls, a, b)
    || exists c :: c in types && b == Const(c) && (c == a || Inherits(decls, a, c))
  }

  lemma {:induction false} TypePath(types: seq<Name>, decls: seq<Decl>, p: seq<Name>)
    requires Proper(types) && BaseFirst(types, decls) && Path(AllEdges(types, decls), p) && p[0] in types
    ensures Leads(types, decls, p[0], p[|p| - 1])
    decreases |p|
  {
    hide AllEdges, Const, BaseEdges, Proper, BaseFirst;
    var a, b := p[0], p[1];
    assert (a, b) in AllEdges(types, decls);
    TypeEdge(types, decls, a, b);
    if |p| > 2 {
      PathTail(AllEdges(types, decls), p);
      var q := p[1..];
      if b == Const(a) {
        ConstPath(types, decls, q, a);
      } else {
        BaseTypes(types, decls, a, b);
        TypePath(types, decls, q);
        LeadsOn(types, decls, a, b, q[|q| - 1]);
      }
      assert q[|q| - 1] == p[|p| - 1];
    } else if b != Const(a) {
      ReachesFirst(BaseEdges(decls), a, b);
    }
  }

  lemma LeadsOn(types: seq<Name>, decls: seq<Decl>, a: Name, b: Name, c: Name)
    requires (a, b) in BaseEdges(decls) && b in types && Leads(types, decls, b, c)
    ensures Leads(types, decls, a, c)
  {
    hide BaseEdges, Const;
    if Inherits(decls, b, c) {
      ReachesFirst(BaseEdges(decls), a, c);
    } else {
      var t :| t in types && c == Const(t) && (t == b || Inherits(decls, b, t));
      ReachesFirst(BaseEdges(decls), a, t);
    }
  }

  lemma TypeEdge(types: seq<Name>, decls: seq<Decl>, a: Name, b: Name)
    requires Proper(types) && BaseFirst(types, decls) && a in types && (a, b) in AllEdges(types, decls)
    ensures b == Const(a) || (a, b) in BaseEdges(decls)
  {
    EdgeMeans(types, decls, a, b);
    if t, c :| (t, c) in BaseEdges(decls) && a == Const(t) && b == Const(c) {
      TypesNotConst(types, a, t);
    }
  }

  /** Inheritance carries over to the const variants. */
  lemma {:induction false} ConstInherits(types: seq<Name>, decls: seq<Decl>, p: seq<Name>)
    requires Path(BaseEdges(decls), p)
    ensures Reaches(AllEdges(types, decls), Const(p[0]), Const(p[|p| - 1]))
    decreases |p|
  {
    hide AllEdges, BaseEdges, Const;
    assert (p[0], p[1]) in BaseEdges(decls);
    EdgeMeans(types, decls, Const(p[0]), Const(p[1]));
    if |p| > 2 {
      PathTail(BaseEdges(decls), p);
      ConstInherits(types, decls, p[1..]);
    }
    ReachesFirst(AllEdges(types, decls), Const(p[0]), Const(p[|p| - 1]));
  }

  lemma {:induction false} TypeInherits(types: seq<Name>, decls: seq<Decl>, p: seq<Name>, c: Name)
    requires BaseFirst(types, decls) && Path(BaseEdges(decls), p) && c == p[|p| - 1]
    ensures Reaches(AllEdges(types, decls), p[0], c) && Reaches(AllEdges(types, decls), p[0], Const(c))
    decreases |p|
  {
    hide AllEdges, BaseEdges, Const, BaseFirst;
    var a, b := p[0], p[1];
    assert (a, b) in BaseEdges(decls);
    EdgeMeans(types, decls, a, b);
    if |p| > 2 {
      PathTail(BaseEdges(decls), p);
      TypeInherits(types, decls, p[1..], c);
    } else {
      BaseTypes(types, decls, a, b);
      EdgeMeans(types, decls, b, Const(b));
      ReachesFirst(AllEdges(types, decls), b, Const(b));
    }
    ReachesFirst(AllEdges(types, decls), a, c);
    ReachesFirst(AllEdges(types, decls), a, Const(c));
  }

  /**
   Reachability in terms of classes and bases: a type reaches its bases, its const variant and theirs, and a const
   variant those of the bases, which need not be the case for the classes themselves.
   */
  lemma {:induction false} ReachesMeans(types: seq<Name>, decls: seq<Decl>, a: Name, b: Name)
    requires Proper(types) && BaseFirst(types, decls) && a in types && b in types
    ensures var e := AllEdges(types, decls);
      && (Reaches(e, a, b) <==> Inherits(decls, a, b))
      && (Reaches(e, a, "const " + b) <==> a == b || Inherits(decls, a, b))
      && (Reaches(e, "const " + a, "const " + b) <==> Inherits(decls, a, b))
      && !Reaches(e, "const " + a, b)
  {
    assert "const " + a == Const(a) && "const " + b == Const(b);
    TypesNotConst(types, b, b);
    TypeReaches(types, decls, a, b);
    ConstReaches(types, decls, a, b);
  }

  lemma {:induction false} TypeReaches(types: seq<Name>, decls: seq<Decl>, a: Name, b: Name)
    requires Proper(types) && BaseFirst(types, decls) && a in types && b in types
    ensures Reaches(AllEdges(types, decls), a, b) <==> Inherits(decls, a, b)
    ensures Reaches(AllEdges(types, decls), a, Const(b)) <==> a == b || Inherits(decls, a, b)
  {
    hide AllEdges, BaseEdges, BaseFirst, Const;
    var e := AllEdges(types, decls);
    if p :| Path(e, p) && p[0] == a && p[|p| - 1] == b {
      TypePath(types, decls, p);
      NotConst(types, decls, a, b);
    }
    if p :| Path(e, p) && p[0] == a && p[|p| - 1] == Const(b) {
      TypePath(types, decls, p);
      OfConst(types, decls, a, b);
    }
    if p :| Path(BaseEdges(decls), p) && p[0] == a && p[|p| - 1] == b {
      TypeInherits(types, decls, p, b);
    }
    EdgeMeans(types, decls, a, Const(a));
    ReachesFirst(e, a, Const(a));
  }

  lemma NotConst(types: seq<Name>, decls: seq<Decl>, a: Name, b: Name)
    requires Proper(types) && b in types && Leads(types, decls, a, b)
    ensures Inherits(decls, a, b)
  {
    if c :| c in types && b == Const(c) && (c == a || Inherits(decls, a, c)) {
      TypesNotConst(types, b, c);
    }
  }

  lemma OfConst(types: seq<Name>, decls: seq<Decl>, a: Name, b: Name)
    requires Proper(types) && BaseFirst(types, decls) && b in types && Leads(types, decls, a, Const(b))
    ensures a == b || Inherits(decls, a, b)
  {
    if Inherits(decls, a, Const(b)) {
      InheritsType(types, decls, a, Const(b));
      TypesNotConst(types, Const(b), b);
    } else {
      var c :| c in types && Const(b) == Const(c) && (c == a || Inherits(decls, a, c));
      ConstInjective(b, c);
    }
  }

  lemma InheritsType(types: seq<Name>, decls: seq<Decl>, a: Name, b: Name)
    requires BaseFirst(types, decls) && Inherits(decls, a, b)
    ensures b in types
  {
    hide BaseEdges, BaseFirst;
    var p :| Path(BaseEdges(decls), p) && p[0] == a && p[|p| - 1] == b;
    assert (p[|p| - 2], p[|p| - 1]) in BaseEdges(decls);
    BaseTypes(types, decls, p[|p| - 2], b);
  }

  lemma {:induction false} ConstReaches(types: seq<Name>, decls: seq<Decl>, a: Name, b: Name)
    requires Proper(types) && BaseFirst(types, decls) && a in types && b in types
    ensures Reaches(AllEdges(types, decls), Const(a), Const(b)) <==> Inherits(decls, a, b)
    ensures !Reaches(AllEdges(types, decls), Const(a), b)
  {
    hide AllEdges, BaseEdges, BaseFirst;
    var e := AllEdges(types, decls);
    forall c | c in types ensures b != Const(c) {
      TypesNotConst(types, b, c);
    }
    if p :| Path(e, p) && p[0] == Const(a) && p[|p| - 1] == Const(b) {
      ConstPath(types, decls, p, a);
      var c :| c in types && Const(b) == Const(c) && Inherits(decls, a, c);
      ConstInjective(b, c);
    }
    if p :| Path(e, p) && p[0] == Const(a) && p[|p| - 1] == b {
      ConstPath(types, decls, p, a);
    }
    if p :| Path(BaseEdges(decls), p) && p[0] == a && p[|p| - 1] == b {
      ConstInherits(types, decls, p);
    }
  }

  // ----- Asking a registered program -----

  /** A program registered and then asked, about a type or a declared class's const variant. */
  method RegisterAndAsk(types: seq<Name>, decls: seq<Decl>, a: Name, b: Name) returns (fast: bool, slow: bool)
    requires Proper(types) && BaseFirst(types, decls) && Registered(types, a) && Registered(types, b)
    requires a in types || exists j :: 0 <= j < |decls| && a == Const(decls[j].name)
    ensures fast == slow
    ensures fast <==> a == b || Reaches(AllEdges(types, decls), a, b)
  {
    hide Closed, AllEdges, Reaches;
    var r := Register(types, decls);
    if j :| 0 <= j < |decls| && a == Const(decls[j].name) {
      DeclaredTypes(types, decls, j);
    }
    fast := r.FastIsa(a, b, types, decls);
    slow := r.IsUsertype(a, b, types, decls);
  }
}

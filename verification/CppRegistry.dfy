/** The registry of marked C++ types, filled in place, and the loops of the type parser. */
module CppRegistry {
  import opened Wrappers
  import opened CppTypes

  /** A marked class; one that declares neither an object nor a value only owns members. */
  datatype ClassSource = ClassSource(qualified: string, name: string, declaresObject: bool, declaresValue: bool)

  datatype EnumSource = EnumSource(qualified: string, name: string)

  datatype Entry = Entry(qualified: string, named: Named)

  function ClassEntries(classes: seq<ClassSource>): seq<Entry> {
    if classes == [] then []
    else ClassEntries(classes[..|classes| - 1]) + ClassEntry(classes[|classes| - 1])
  }

  function ClassEntry(item: ClassSource): seq<Entry> {
    if item.declaresObject then [Entry(item.qualified, Named(ObjectKind, item.name))]
    else if item.declaresValue then [Entry(item.qualified, Named(ValueKind, item.name))]
    else []
  }

  function EnumEntries(enums: seq<EnumSource>): seq<Entry> {
    if enums == [] then []
    else
      var last := enums[|enums| - 1];
      EnumEntries(enums[..|enums| - 1]) + [Entry(last.qualified, Named(EnumKind, last.name))]
  }

  /** The table some entries make, or None when two share a qualified name. */
  function Tabulated(entries: seq<Entry>): Option<Registry> {
    if entries == [] then Some(map[])
    else
      var front, last := Tabulated(entries[..|entries| - 1]), entries[|entries| - 1];
      if front.None? || last.qualified in front.value then None
      else Some(front.value[last.qualified := last.named])
  }

  /** What is tabulated is what was listed, each name once. */
  lemma {:induction false} TabulatedIsExact(entries: seq<Entry>)
    ensures Tabulated(entries).Some? <==>
      forall i, j :: 0 <= i < j < |entries| ==> entries[i].qualified != entries[j].qualified
    ensures Tabulated(entries).Some? ==>
      forall q, n :: q in Tabulated(entries).value && Tabulated(entries).value[q] == n <==> Entry(q, n) in entries
  {
    if entries != [] {
      var front, last := entries[..|entries| - 1], entries[|entries| - 1];
      assert entries == front + [last];
      TabulatedIsExact(front);
      if Tabulated(front).Some? {
        var table := Tabulated(front).value;
        if last.qualified in table {
          assert Entry(last.qualified, table[last.qualified]) in front;
        } else {
          forall i | 0 <= i < |front|
            ensures front[i].qualified != last.qualified
          {
            assert Entry(front[i].qualified, front[i].named) in front;
          }
        }
      }
    }
  }

  /** A class is listed as the object or the value it declares, an object first; one that only owns
      members is not. */
  ghost predicate ListsClass(item: ClassSource, e: Entry) {
    && e.qualified == item.qualified && e.named.publicName == item.name
    && ((item.declaresObject && e.named.kind.ObjectKind?)
        || (!item.declaresObject && item.declaresValue && e.named.kind.ValueKind?))
  }

  ghost predicate ClassListed(classes: seq<ClassSource>, e: Entry) {
    exists i :: 0 <= i < |classes| && ListsClass(classes[i], e)
  }

  lemma {:induction false} ClassesAreListed(classes: seq<ClassSource>)
    ensures forall e :: e in ClassEntries(classes) <==> ClassListed(classes, e)
  {
    if classes != [] {
      var front, last := classes[..|classes| - 1], classes[|classes| - 1];
      ClassesAreListed(front);
      assert forall e :: e in ClassEntry(last) <==> ListsClass(last, e);
      assert forall e :: ClassListed(classes, e) <==> ClassListed(front, e) || ListsClass(last, e) by {
        assert forall i :: 0 <= i < |front| ==> front[i] == classes[i];
      }
    }
  }

  predicate ListsEnum(item: EnumSource, e: Entry) {
    e.qualified == item.qualified && e.named.publicName == item.name && e.named.kind.EnumKind?
  }

  ghost predicate EnumListed(enums: seq<EnumSource>, e: Entry) {
    exists i :: 0 <= i < |enums| && ListsEnum(enums[i], e)
  }

  lemma {:induction false} EnumsAreListed(enums: seq<EnumSource>)
    ensures forall e :: e in EnumEntries(enums) <==> EnumListed(enums, e)
  {
    if enums != [] {
      var front, last := enums[..|enums| - 1], enums[|enums| - 1];
      EnumsAreListed(front);
      assert forall e :: EnumListed(enums, e) <==> EnumListed(front, e) || ListsEnum(last, e) by {
        assert forall i :: 0 <= i < |front| ==> front[i] == enums[i];
      }
    }
  }

  lemma {:induction false} FailureLasts(entries: seq<Entry>, more: seq<Entry>)
    requires Tabulated(entries).None?
    ensures Tabulated(entries + more).None?
    decreases |more|
  {
    if more == [] {
      assert entries + more == entries;
    } else {
      assert (entries + more)[..|entries + more| - 1] == entries + more[..|more| - 1];
      FailureLasts(entries, more[..|more| - 1]);
    }
  }

  lemma OneMoreClass(classes: seq<ClassSource>, index: nat)
    requires index < |classes|
    ensures ClassEntries(classes[..index + 1]) == ClassEntries(classes[..index]) + ClassEntry(classes[index])
  {
    assert classes[..index + 1][..index] == classes[..index];
  }

  lemma {:induction false} ClassEntriesSplit(classes: seq<ClassSource>, index: nat)
    requires index <= |classes|
    ensures ClassEntries(classes[..index]) <= ClassEntries(classes)
    decreases |classes| - index
  {
    if index < |classes| {
      ClassEntriesSplit(classes, index + 1);
      assert classes[..index + 1][..index] == classes[..index];
    } else {
      assert classes[..index] == classes;
    }
  }

  lemma {:induction false} EnumEntriesSplit(enums: seq<EnumSource>, index: nat)
    requires index <= |enums|
    ensures EnumEntries(enums[..index]) <= EnumEntries(enums)
    decreases |enums| - index
  {
    if index < |enums| {
      EnumEntriesSplit(enums, index + 1);
      assert enums[..index + 1][..index] == enums[..index];
    } else {
      assert enums[..index] == enums;
    }
  }

  lemma EnumStep(earlier: seq<Entry>, enums: seq<EnumSource>, index: nat)
    requires index < |enums|
    ensures earlier + EnumEntries(enums[..index + 1])
      == earlier + EnumEntries(enums[..index]) + [Entry(enums[index].qualified, Named(EnumKind, enums[index].name))]
    ensures Tabulated(earlier + EnumEntries(enums[..index + 1])) ==
      var front := Tabulated(earlier + EnumEntries(enums[..index]));
      if front.None? || enums[index].qualified in front.value then None
      else Some(front.value[enums[index].qualified := Named(EnumKind, enums[index].name)])
  {
    assert enums[..index + 1][..index] == enums[..index];
    var all := earlier + EnumEntries(enums[..index + 1]);
    assert all[..|all| - 1] == earlier + EnumEntries(enums[..index]);
  }

  /** A duplicate among the first entries is a duplicate. */
  lemma PrefixFailure(prefix: seq<Entry>, all: seq<Entry>)
    requires prefix <= all && Tabulated(prefix).None?
    ensures Tabulated(all).None?
  {
    FailureLasts(prefix, all[|prefix|..]);
    assert all == prefix + all[|prefix|..];
  }

  predicate Distinct(names: seq<string>) {
    forall i, j :: 0 <= i < j < |names| ==> names[i] != names[j]
  }

  lemma {:induction false} DistinctCount(names: seq<string>)
    requires Distinct(names)
    ensures |set q | q in names| == |names|
  {
    if names != [] {
      var front, last := names[..|names| - 1], names[|names| - 1];
      DistinctCount(front);
      assert (set q | q in names) == (set q | q in front) + {last};
    }
  }

  /** Under every public name, exactly the types that have it, once each. */
  ghost predicate Indexed(byQualified: Registry, byFinal: map<string, seq<string>>) {
    && (forall q :: q in byQualified ==> byQualified[q].publicName in byFinal)
    && (forall name :: name in byFinal ==> Distinct(byFinal[name]))
    && (forall name, q :: name in byFinal ==> (q in byFinal[name] <==> q in Finals(byQualified, name)))
  }

  lemma IndexedAfterAdding(byQualified: Registry, byFinal: map<string, seq<string>>, qualified: string, named: Named)
    requires Indexed(byQualified, byFinal) && qualified !in byQualified
    ensures var names := if named.publicName in byFinal then byFinal[named.publicName] else [];
      Indexed(byQualified[qualified := named], byFinal[named.publicName := names + [qualified]])
  {
    var names := if named.publicName in byFinal then byFinal[named.publicName] else [];
    var r, f := byQualified[qualified := named], byFinal[named.publicName := names + [qualified]];
    assert qualified !in names;
    assert forall q :: q in names <==> q in byQualified && byQualified[q].publicName == named.publicName;
    forall name, q | name in f
      ensures q in f[name] <==> q in Finals(r, name)
    {
      if name == named.publicName {
        assert q in f[name] <==> q in names || q == qualified;
      } else {
        assert name in byFinal && (q in byFinal[name] <==> q in Finals(byQualified, name));
      }
    }
  }

  lemma OneMember(names: set<string>, a: string, b: string)
    requires |names| == 1 && a in names && b in names
    ensures a == b
  {
    if a != b {
      assert {a, b} <= names;
      CountOfSubset({a, b}, names);
    }
  }

  lemma {:induction false} CountOfSubset(part: set<string>, whole: set<string>)
    requires part <= whole
    ensures |part| <= |whole|
  {
    if part != {} {
      var x :| x in part;
      CountOfSubset(part - {x}, whole - {x});
    }
  }

  class CppTypeRegistry {
    var byQualified: Registry
    var byFinal: map<string, seq<string>>

    ghost predicate Valid()
      reads this
    {
      Indexed(byQualified, byFinal)
    }

    constructor ()
      ensures Valid() && byQualified == map[]
    {
      byQualified, byFinal := map[], map[];
    }

    method Add(qualified: string, publicName: string, kind: Kind) returns (ok: bool)
      requires Valid()
      modifies this
      ensures Valid() && ok == (qualified !in old(byQualified))
      ensures byQualified == if ok then old(byQualified)[qualified := Named(kind, publicName)] else old(byQualified)
    {
      if qualified in byQualified {
        return false;
      }
      IndexedAfterAdding(byQualified, byFinal, qualified, Named(kind, publicName));
      byQualified := byQualified[qualified := Named(kind, publicName)];
      var names := if publicName in byFinal then byFinal[publicName] else [];
      byFinal := byFinal[publicName := names + [qualified]];
      return true;
    }

    /** Fills the registry from the scanned declarations; false is the duplicate-name error. */
    method AddAll(classes: seq<ClassSource>, enums: seq<EnumSource>) returns (ok: bool)
      requires Valid() && byQualified == map[]
      modifies this
      ensures Valid()
      ensures var table := Tabulated(ClassEntries(classes) + EnumEntries(enums));
        ok == table.Some? && (ok ==> byQualified == table.value)
    {
      ok := AddClasses(classes);
      if !ok {
        PrefixFailure(ClassEntries(classes), ClassEntries(classes) + EnumEntries(enums));
        return false;
      }
      assert ClassEntries(classes) + [] == ClassEntries(classes);
      ghost var all := ClassEntries(classes) + EnumEntries(enums);
      var index := 0;
      while index < |enums|
        invariant index <= |enums| && Valid()
        invariant Tabulated(ClassEntries(classes) + EnumEntries(enums[..index])) == Some(byQualified)
      {
        EnumStep(ClassEntries(classes), enums, index);
        var added := Add(enums[index].qualified, enums[index].name, EnumKind);
        if !added {
          EnumEntriesSplit(enums, index + 1);
          PrefixFailure(ClassEntries(classes) + EnumEntries(enums[..index + 1]), all);
          return false;
        }
        index := index + 1;
      }
      assert enums[..index] == enums;
    }

    method AddClass(item: ClassSource, ghost earlier: seq<Entry>) returns (ok: bool)
      requires Valid() && Tabulated(earlier) == Some(byQualified)
      modifies this
      ensures Valid()
      ensures Tabulated(earlier + ClassEntry(item)) == if ok then Some(byQualified) else None
    {
      ok := true;
      assert earlier + [] == earlier;
      ghost var all := earlier + ClassEntry(item);
      assert ClassEntry(item) != [] ==> all[..|all| - 1] == earlier;
      if item.declaresObject || item.declaresValue {
        ok := Add(item.qualified, item.name, if item.declaresObject then ObjectKind else ValueKind);
      }
    }

    method AddClasses(classes: seq<ClassSource>) returns (ok: bool)
      requires Valid() && byQualified == map[]
      modifies this
      ensures Valid()
      ensures var table := Tabulated(ClassEntries(classes));
        ok == table.Some? && (ok ==> byQualified == table.value)
    {
      var index := 0;
      while index < |classes|
        invariant index <= |classes| && Valid()
        invariant Tabulated(ClassEntries(classes[..index])) == Some(byQualified)
      {
        var item := classes[index];
        OneMoreClass(classes, index);
        var added := AddClass(item, ClassEntries(classes[..index]));
        if !added {
          ClassEntriesSplit(classes, index + 1);
          PrefixFailure(ClassEntries(classes[..index + 1]), ClassEntries(classes));
          return false;
        }
        index := index + 1;
      }
      assert classes[..index] == classes;
      return true;
    }

    /** Name lookup: an exact match for a scoped name; otherwise the innermost enclosing
        namespace, then a public name only one type has. */
    method Lookup(spelling: string, namespaces: seq<string>) returns (found: Resolution)
      requires Valid()
      ensures found == Resolve(byQualified, spelling, namespaces)
    {
      var name := WithoutRoot(spelling);
      if HasScope(name) {
        return if name in byQualified then Resolved(name) else Unknown;
      }
      var count := |namespaces|;
      while true
        invariant 0 <= count <= |namespaces|
        invariant Enclosing(byQualified, namespaces, |namespaces|, name)
          == Enclosing(byQualified, namespaces, count, name)
        decreases count
      {
        var qualified := Join(namespaces[..count], name);
        if qualified in byQualified {
          return Resolved(qualified);
        }
        if count == 0 {
          break;
        }
        count := count - 1;
      }
      found := FinalName(name);
      if found.Resolved? {
        OneMember(Finals(byQualified, name), found.name, Resolve(byQualified, spelling, namespaces).name);
      }
    }

    method FinalName(name: string) returns (found: Resolution)
      requires Valid()
      ensures |Finals(byQualified, name)| == 1 ==> found.Resolved? && found.name in Finals(byQualified, name)
      ensures |Finals(byQualified, name)| > 1 ==> found == Ambiguous
      ensures |Finals(byQualified, name)| == 0 ==> found == Unknown
    {
      var matches := if name in byFinal then byFinal[name] else [];
      ghost var finals := Finals(byQualified, name);
      assert (set q | q in matches) == finals;
      DistinctCount(matches);
      if |matches| == 1 {
        return Resolved(matches[0]);
      } else if |matches| > 1 {
        return Ambiguous;
      } else {
        return Unknown;
      }
    }
  }

  /** The argument of a template spelling: the text between the outer brackets, when it is
      balanced and has no comma of its own. */
  method TemplateInner(value: string, template: string) returns (inner: Option<string>)
    ensures inner == Inner(value, template)
  {
    var prefix := template + "<";
    if !(prefix <= value) || |value| <= |prefix| || value[|value| - 1] != '>' {
      return None;
    }
    var text := value[|prefix|..|value| - 1];
    var depth, index := 0, 0;
    while index < |text|
      invariant index <= |text|
      invariant ClosingDepth(text, 0) == ClosingDepth(text[index..], depth)
    {
      assert text[index..][1..] == text[index + 1..];
      if text[index] == '<' {
        depth := depth + 1;
      } else if text[index] == '>' {
        depth := depth - 1;
      } else if text[index] == ',' && depth == 0 {
        return None;
      }
      index := index + 1;
    }
    return if text != "" && depth == 0 then Some(text) else None;
  }
}

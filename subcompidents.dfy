/**
 * Component identifiers. `Compident` is the (library, component) pair that
 * tntnet's base parser produces; that parser and its `toString` live outside
 * this model and are taken as parameters. `Subcompident` adds the
 * sub-component part, split off the component part at its first '.'.
 */
module Subcompidents {
  import opened Outcomes

  /** The result of the base parse of a component reference. */
  datatype Compident = Compident(libname: string, compname: string)

  /** The character that separates a component from its sub-component. */
  const Separator: char := '.'

  /** The position of the first `c` in `s`, as `std::string::find` reports it. */
  function IndexOf(s: string, c: char): (r: Option<nat>)
    ensures r.None? <==> c !in s
    ensures r.Some? ==> r.value < |s| && s[r.value] == c && c !in s[..r.value]
  {
    if |s| == 0 then None
    else if s[0] == c then Some(0)
    else
      match IndexOf(s[1..], c)
      case None => None
      case Some(k) =>
        assert s[..k + 1] == [s[0]] + s[1..][..k];
        Some(k + 1)
  }

  datatype Subcompident = Subcompident(libname: string, compname: string, subname: string)
  {
    /** The `Compident` part, as a `const Compident&` reference to it sees it. */
    function Base(): Compident {
      Compident(libname, compname)
    }

    /**
     * `Subcompident::toString`: the base form, followed by '.' and the
     * sub-component name only when there is one.
     */
    function ToString(render: Compident -> string): (s: string)
      ensures render(Base()) <= s
      ensures s == render(Base()) <==> subname == ""
      ensures subname != "" ==>
                |s| == |render(Base())| + 1 + |subname| &&
                s[|render(Base())|] == Separator && s[|render(Base())| + 1..] == subname
    {
      var ret := render(Base());
      if subname == "" then ret else ret + [Separator] + subname
    }

    /**
     * The rejoined component part: the component name, then '.' and the
     * sub-component name when there is one. `ToString` ends with it when
     * the base form ends with the component name (`ToStringEndsWithJoined`).
     */
    function Joined(): string {
      if subname == "" then compname else compname + [Separator] + subname
    }
  }

  /**
   * The field values that the `Subcompident(const std::string&)` constructor
   * leaves behind, given the pair the base parser produced: the component
   * part is split once, at its first '.', and the library is kept.
   */
  function Split(ci: Compident): (sc: Subcompident)
    ensures sc.libname == ci.libname
    ensures Separator !in ci.compname ==> sc.compname == ci.compname && sc.subname == ""
    ensures Separator in ci.compname ==>
              Separator !in sc.compname && ci.compname == sc.compname + [Separator] + sc.subname
  {
    match IndexOf(ci.compname, Separator)
    case None => Subcompident(ci.libname, ci.compname, "")
    case Some(pos) =>
      assert ci.compname == ci.compname[..pos] + [Separator] + ci.compname[pos + 1..];
      Subcompident(ci.libname, ci.compname[..pos], ci.compname[pos + 1..])
  }

  /**
   * The constructor as the source writes it: start from the base parse,
   * find the first '.', then overwrite `subname` and `compname` in place.
   */
  method NewSubcompident(ident: Compident) returns (sc: Subcompident)
    ensures sc == Split(ident)
  {
    sc := Subcompident(ident.libname, ident.compname, "");
    var pos := IndexOf(sc.compname, Separator);
    if pos.Some? {
      sc := sc.(subname := sc.compname[pos.value + 1..]);
      sc := sc.(compname := sc.compname[..pos.value]);
    }
  }

  /** Splitting at a first separator is unambiguous. */
  lemma FirstSeparatorUnique(a: string, b: string, a': string, b': string)
    requires Separator !in a && Separator !in a'
    requires a + [Separator] + b == a' + [Separator] + b'
    ensures a == a' && b == b'
  {
    var s := a + [Separator] + b;
    assert s[|a|] == Separator && s[|a'|] == Separator;
    assert forall i :: 0 <= i < |a| ==> s[i] == a[i] != Separator;
    assert forall i :: 0 <= i < |a'| ==> s[i] == a'[i] != Separator;
    assert a == s[..|a|] == a';
    assert b == s[|a| + 1..] == b';
  }

  /**
   * Rejoining the split gives back the parsed component part exactly
   * unless the first '.' was its last character, which the split drops.
   */
  lemma JoinedRecoversComponent(ci: Compident)
    ensures Split(ci).Joined() == ci.compname <==> !(Separator in ci.compname && Split(ci).subname == "")
  {
  }

  /**
   * Splitting is idempotent on canonical input: re-splitting the rejoined
   * component part of a sub-identifier whose component name holds no '.'
   * gives the same sub-identifier back.
   */
  lemma ReparseJoined(sc: Subcompident)
    requires Separator !in sc.compname
    ensures Split(Compident(sc.libname, sc.Joined())) == sc
  {
    var r := Split(Compident(sc.libname, sc.Joined()));
    if sc.subname != "" {
      assert sc.Joined()[|sc.compname|] == Separator;
      FirstSeparatorUnique(r.compname, r.subname, sc.compname, sc.subname);
    }
  }

  /**
   * For a base form that ends with the component name (`lead` standing for
   * whatever the base `toString` writes before it), `ToString` is that
   * leading text followed by the rejoined component part.
   */
  lemma ToStringEndsWithJoined(sc: Subcompident, render: Compident -> string, lead: string)
    requires render(sc.Base()) == lead + sc.compname
    ensures sc.ToString(render) == lead + sc.Joined()
  {
  }

  /** Two sub-identifiers over the same base render alike exactly when their sub-component names agree. */
  lemma ToStringDistinguishesSubname(x: Subcompident, y: Subcompident, render: Compident -> string)
    requires x.Base() == y.Base()
    ensures x.ToString(render) == y.ToString(render) <==> x.subname == y.subname
  {
  }

  /** A component part made of a '.'-free name, '.', and any suffix splits back into those two pieces. */
  lemma SplitAt(lib: string, comp: string, sub: string)
    requires Separator !in comp
    ensures Split(Compident(lib, comp + [Separator] + sub)) == Subcompident(lib, comp, sub)
  {
    var sc := Split(Compident(lib, comp + [Separator] + sub));
    assert (comp + [Separator] + sub)[|comp|] == Separator;
    FirstSeparatorUnique(sc.compname, sc.subname, comp, sub);
  }

  /** The decompositions that the split yields on typical inputs. */
  lemma SplitExamples()
    ensures Split(Compident("a", "b.c")) == Subcompident("a", "b", "c")
    ensures Split(Compident("", "b.c")) == Subcompident("", "b", "c")
    ensures Split(Compident("", "b")) == Subcompident("", "b", "")
    ensures Split(Compident("", "b.c.d")) == Subcompident("", "b", "c.d")
    ensures Split(Compident("", ".c")) == Subcompident("", "", "c")
    ensures Split(Compident("", "b.")) == Subcompident("", "b", "")
  {
    assert "b.c" == "b" + [Separator] + "c";
    SplitAt("a", "b", "c");
    SplitAt("", "b", "c");
    assert "b.c.d" == "b" + [Separator] + "c.d";
    SplitAt("", "b", "c.d");
    assert ".c" == "" + [Separator] + "c";
    SplitAt("", "", "c");
    assert "b." == "b" + [Separator] + "";
    SplitAt("", "b", "");
  }
}

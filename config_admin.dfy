/**
 * The configuration store behind the configuration service, reduced to what
 * the service uses: configurations in creation order, each with a pid, an
 * optional factory pid and properties that stay null until first updated.
 */
module ConfigAdmins {
  import opened Wrappers

  type Properties = map<string, string>

  datatype Configuration = Configuration(pid: string, factoryPid: Option<string>, properties: Option<Properties>)

  /** The property under which a factory instance keeps its alias. */
  const AliasKey := "config.factory-pid"

  /**
   * The two lookups the service issues: by factory pid and alias, or by pid.
   * Each name goes into the filter text as it is, without escaping.
   */
  datatype LookupFilter = FactoryAlias(factoryPid: string, alias: string) | ServicePid(pid: string)

  /** One element of a filter value as read: a literal character, or an unescaped `*` standing for any run of characters. */
  datatype Token = Lit(c: char) | Star

  /**
   * A filter value as the OSGi filter syntax reads it: `\` takes the next
   * character literally and an unescaped `*` is a wildcard; an unescaped `(`
   * or `)`, or a `\` with nothing after it, makes the filter invalid.
   */
  function ValueTokens(v: string): Option<seq<Token>>
  {
    if v == [] then Some([])
    else if v[0] == '\\' then
      if |v| == 1 then None
      else
        var rest := ValueTokens(v[2..]);
        if rest.None? then None else Some([Lit(v[1])] + rest.value)
    else if v[0] == '(' || v[0] == ')' then None
    else
      var rest := ValueTokens(v[1..]);
      if rest.None? then None else Some([if v[0] == '*' then Star else Lit(v[0])] + rest.value)
  }

  /** A value of an equality or substring item; an empty value is invalid. */
  function FilterValue(v: string): Option<seq<Token>>
  {
    if v == [] then None else ValueTokens(v)
  }

  /** Whether `s` matches the tokens: a literal matches itself and `*` any run of characters, empty included. */
  predicate Glob(p: seq<Token>, s: string)
    decreases |p| + |s|
  {
    if p == [] then s == []
    else if p[0].Star? then Glob(p[1..], s) || (s != [] && Glob(p, s[1..]))
    else s != [] && s[0] == p[0].c && Glob(p[1..], s[1..])
  }

  /** A lookup's filter text once parsed: `(&(service.factoryPid=..)(config.factory-pid=..))` or `(service.pid=..)`. */
  datatype ParsedFilter = FactoryAliasFilter(factoryPid: seq<Token>, alias: seq<Token>) | PidFilter(pid: seq<Token>)

  /** The filter the store builds from the service's text, or None when the text is not a valid filter. */
  function CreateFilter(f: LookupFilter): Option<ParsedFilter>
  {
    match f
    case FactoryAlias(fp, alias) =>
      var a, b := FilterValue(fp), FilterValue(alias);
      if a.None? || b.None? then None else Some(FactoryAliasFilter(a.value, b.value))
    case ServicePid(pid) =>
      var v := FilterValue(pid);
      if v.None? then None else Some(PidFilter(v.value))
  }

  predicate Matches(q: ParsedFilter, c: Configuration)
  {
    match q
    case FactoryAliasFilter(fp, alias) =>
      && c.factoryPid.Some? && Glob(fp, c.factoryPid.value)
      && c.properties.Some? && AliasKey in c.properties.value && Glob(alias, c.properties.value[AliasKey])
    case PidFilter(pid) => Glob(pid, c.pid)
  }

  /** Listing reports only configurations that have properties, and of those the ones the filter matches. */
  predicate Selected(filter: Option<ParsedFilter>, c: Configuration)
  {
    c.properties.Some? && (filter.None? || Matches(filter.value, c))
  }

  /** The value read character by character, every one literal. */
  function Literal(s: string): (p: seq<Token>)
    ensures |p| == |s| && forall i :: 0 <= i < |p| ==> p[i] == Lit(s[i])
  {
    seq(|s|, i requires 0 <= i < |s| => Lit(s[i]))
  }

  /** A name with none of the characters the filter syntax gives a meaning to. */
  predicate Plain(v: string)
  {
    v != [] && '\\' !in v && '*' !in v && '(' !in v && ')' !in v
  }

  /** A name the filter reads as a valid value that it matches: not empty, no `\`, no parenthesis. */
  predicate ReadsAsItself(v: string)
  {
    v != [] && '\\' !in v && '(' !in v && ')' !in v
  }

  lemma {:induction false} PlainTokens(v: string)
    requires '\\' !in v && '*' !in v && '(' !in v && ')' !in v
    ensures ValueTokens(v) == Some(Literal(v))
  {
    if v != [] {
      PlainTokens(v[1..]);
      assert [Lit(v[0])] + Literal(v[1..]) == Literal(v);
    }
  }

  /** Literal tokens match exactly their own string. */
  lemma {:induction false} GlobLiteral(s: string, t: string)
    ensures Glob(Literal(s), t) <==> t == s
  {
    if s != [] {
      assert Literal(s)[1..] == Literal(s[1..]);
      if t != [] {
        GlobLiteral(s[1..], t[1..]);
        if t[0] == s[0] && t[1..] == s[1..] {
          assert t == [t[0]] + t[1..] && s == [s[0]] + s[1..];
        }
      }
    }
  }

  /** A name without backslash or parenthesis is a valid value that matches the name itself, whatever `*` it holds. */
  lemma {:induction false} ValueMatchesItself(v: string)
    requires '\\' !in v && '(' !in v && ')' !in v
    ensures ValueTokens(v).Some? && Glob(ValueTokens(v).value, v)
  {
    if v != [] {
      ValueMatchesItself(v[1..]);
      var p := ValueTokens(v);
      assert p.value[1..] == ValueTokens(v[1..]).value;
      if v[0] == '*' {
        assert Glob(p.value[1..], v[1..]);
        assert Glob(p.value[1..], v[1..]) ==> Glob(p.value, v[1..]) by {
          GlobStarSkips(p.value[1..], v[1..]);
        }
      }
    }
  }

  /** A pattern after a `*` can also match with the `*` in front. */
  lemma GlobStarSkips(p: seq<Token>, s: string)
    ensures Glob(p, s) ==> Glob([Star] + p, s)
  {
    assert ([Star] + p)[1..] == p;
  }

  /** Whether a configuration carries the names of a lookup, character for character. */
  predicate Names(f: LookupFilter, c: Configuration)
  {
    match f
    case FactoryAlias(fp, alias) =>
      c.factoryPid == Some(fp) && c.properties.Some? && AliasKey in c.properties.value && c.properties.value[AliasKey] == alias
    case ServicePid(pid) => c.pid == pid
  }

  /** A lookup by plain names matches exactly the configurations carrying those names. */
  lemma PlainLookupIsExact(f: LookupFilter, c: Configuration)
    requires f.ServicePid? ==> Plain(f.pid)
    requires f.FactoryAlias? ==> Plain(f.factoryPid) && Plain(f.alias)
    ensures CreateFilter(f).Some?
    ensures Matches(CreateFilter(f).value, c) <==> Names(f, c)
  {
    match f
    case ServicePid(pid) =>
      PlainTokens(pid);
      GlobLiteral(pid, c.pid);
    case FactoryAlias(fp, alias) =>
      PlainTokens(fp);
      PlainTokens(alias);
      if c.factoryPid.Some? {
        GlobLiteral(fp, c.factoryPid.value);
      }
      if c.properties.Some? && AliasKey in c.properties.value {
        GlobLiteral(alias, c.properties.value[AliasKey]);
      }
  }

  /** Every name of the lookup reads as a valid filter value matching itself. */
  predicate LookupReadsAsItself(f: LookupFilter)
  {
    match f
    case FactoryAlias(fp, alias) => ReadsAsItself(fp) && ReadsAsItself(alias)
    case ServicePid(pid) => ReadsAsItself(pid)
  }

  /** A lookup whose names hold no backslash or parenthesis matches the configurations it names, `*` or not. */
  lemma LookupMatchesItsNames(f: LookupFilter, c: Configuration)
    requires LookupReadsAsItself(f) && Names(f, c)
    ensures CreateFilter(f).Some? && Matches(CreateFilter(f).value, c)
  {
    match f
    case ServicePid(pid) =>
      ValueMatchesItself(pid);
    case FactoryAlias(fp, alias) =>
      ValueMatchesItself(fp);
      ValueMatchesItself(alias);
  }

  /** An unescaped `*` in a pid is a wildcard: `x.a*` finds the configuration `x.a1`. */
  lemma WildcardPidMatchesOthers()
    ensures CreateFilter(ServicePid("x.a*")) == Some(PidFilter([Lit('x'), Lit('.'), Lit('a'), Star]))
    ensures Matches(PidFilter([Lit('x'), Lit('.'), Lit('a'), Star]), Configuration("x.a1", None, Some(map[])))
  {
    var v := "x.a*";
    assert v[1..] == ".a*" && v[2..] == "a*" && v[3..] == "*" && v[4..] == "";
    assert v[3..][1..] == v[4..] && v[2..][1..] == v[3..] && v[1..][1..] == v[2..];
    assert ValueTokens(v[4..]) == Some([]);
    assert [Star] + [] == [Star] && [Lit('a')] + [Star] == [Lit('a'), Star];
    assert [Lit('.')] + [Lit('a'), Star] == [Lit('.'), Lit('a'), Star];
    assert [Lit('x')] + [Lit('.'), Lit('a'), Star] == [Lit('x'), Lit('.'), Lit('a'), Star];
    assert ValueTokens(v[3..]) == Some([Star]);
    assert ValueTokens(v[2..]) == Some([Lit('a'), Star]);
    assert ValueTokens(v[1..]) == Some([Lit('.'), Lit('a'), Star]);
    var p := [Lit('x'), Lit('.'), Lit('a'), Star];
    assert Glob(p[3..], "") && Glob(p[3..], "1"[1..]) && Glob(p[3..], "1");
    assert Glob(p[2..], "a1") && Glob(p[1..], ".a1");
  }

  /** A parenthesis in a name makes the filter text invalid, and a backslash is read as an escape. */
  lemma SpecialCharactersInNames()
    ensures CreateFilter(ServicePid("a(b")) == None
    ensures CreateFilter(ServicePid("a)b")) == None
    ensures CreateFilter(ServicePid("a\\")) == None
    ensures CreateFilter(ServicePid("a\\b")) == Some(PidFilter([Lit('a'), Lit('b')]))
    ensures !Matches(PidFilter([Lit('a'), Lit('b')]), Configuration("a\\b", None, Some(map[])))
  {
    assert "a(b"[1..] == "(b" && "a)b"[1..] == ")b" && "a\\"[1..] == "\\";
    var e := "a\\b";
    assert e[1..] == "\\b" && e[1..][2..] == "" && e[1..][0] == '\\' && e[1..][1] == 'b';
    assert ValueTokens(e[1..][2..]) == Some([]);
    assert [Lit('b')] + [] == [Lit('b')] && [Lit('a')] + [Lit('b')] == [Lit('a'), Lit('b')];
    assert ValueTokens(e[1..]) == Some([Lit('b')]);
    assert !Glob([Lit('b')], e[1..]);
  }

  /** The listing, in store order. */
  function Listed(configs: seq<Configuration>, filter: Option<ParsedFilter>): (r: seq<Configuration>)
    ensures forall c :: c in r <==> c in configs && Selected(filter, c)
  {
    if configs == [] then []
    else
      var init, last := configs[..|configs| - 1], configs[|configs| - 1];
      assert configs == init + [last];
      Listed(init, filter) + (if Selected(filter, last) then [last] else [])
  }

  /** The first listed configuration, if any. */
  function FirstMatch(configs: seq<Configuration>, f: ParsedFilter): (r: Option<Configuration>)
    ensures r.Some? ==> r.value in configs && Selected(Some(f), r.value)
    ensures r.None? <==> forall c :: c in configs ==> !Selected(Some(f), c)
  {
    var listed := Listed(configs, Some(f));
    if listed == [] then None else assert listed[0] in listed; Some(listed[0])
  }

  /** The store after setting the properties of the configuration `pid`. */
  function WithProperties(configs: seq<Configuration>, pid: string, props: Properties): (r: seq<Configuration>)
    ensures |r| == |configs|
    ensures forall i :: 0 <= i < |r| ==> r[i].pid == configs[i].pid && r[i].factoryPid == configs[i].factoryPid
    ensures forall i :: 0 <= i < |r| ==>
      r[i].properties == if configs[i].pid == pid then Some(props) else configs[i].properties
  {
    seq(|configs|, i requires 0 <= i < |configs| =>
      if configs[i].pid == pid then configs[i].(properties := Some(props)) else configs[i])
  }

  /** The store after deleting the configuration `pid`. */
  function Without(configs: seq<Configuration>, pid: string): seq<Configuration>
  {
    if configs == [] then []
    else Without(configs[..|configs| - 1], pid) + (if configs[|configs| - 1].pid != pid then [configs[|configs| - 1]] else [])
  }

  /** Deleting keeps every other configuration and no configuration of that pid. */
  lemma {:induction false} WithoutKeepsOthers(configs: seq<Configuration>, pid: string)
    ensures forall c :: c in Without(configs, pid) <==> c in configs && c.pid != pid
  {
    if configs != [] {
      var n := |configs| - 1;
      WithoutKeepsOthers(configs[..n], pid);
      assert configs == configs[..n] + [configs[n]];
    }
  }

  lemma {:induction false} WithoutAbsent(configs: seq<Configuration>, pid: string)
    requires forall i :: 0 <= i < |configs| ==> configs[i].pid != pid
    ensures Without(configs, pid) == configs
  {
    if configs != [] {
      var n := |configs| - 1;
      WithoutAbsent(configs[..n], pid);
      assert configs == configs[..n] + [configs[n]];
    }
  }

  /** Deleting the only configuration with a pid cuts it out of the sequence. */
  lemma {:induction false} WithoutAt(configs: seq<Configuration>, i: nat)
    requires i < |configs|
    requires forall j :: 0 <= j < |configs| && j != i ==> configs[j].pid != configs[i].pid
    ensures Without(configs, configs[i].pid) == configs[..i] + configs[i + 1..]
  {
    var n := |configs| - 1;
    var init := configs[..n];
    var pid := configs[i].pid;
    if i == n {
      WithoutAbsent(init, configs[i].pid);
      assert configs[i + 1..] == [];
    } else {
      assert init[i] == configs[i];
      WithoutAt(init, i);
      assert init[..i] == configs[..i];
      assert init[i + 1..] + [configs[n]] == configs[i + 1..];
    }
  }

  predicate DistinctPids(configs: seq<Configuration>)
  {
    forall i, j :: 0 <= i < j < |configs| ==> configs[i].pid != configs[j].pid
  }

  class ConfigurationAdmin {
    var configs: seq<Configuration>

    ghost predicate Valid()
      reads this
    {
      DistinctPids(configs)
    }

    constructor ()
      ensures Valid() && configs == []
    {
      configs := [];
    }

    /** Index of the configuration `pid`, or `|configs|` when there is none. */
    method IndexOf(pid: string) returns (i: nat)
      ensures i <= |configs|
      ensures i < |configs| ==> configs[i].pid == pid
      ensures forall j :: 0 <= j < i ==> configs[j].pid != pid
    {
      i := 0;
      while i < |configs| && configs[i].pid != pid
        invariant i <= |configs|
        invariant forall j :: 0 <= j < i ==> configs[j].pid != pid
      {
        i := i + 1;
      }
    }

    /** The configurations the filter text selects, or None when the text is not a valid filter. */
    method ListConfigurations(filter: Option<LookupFilter>) returns (r: Option<seq<Configuration>>)
      ensures filter.None? ==> r == Some(Listed(configs, None))
      ensures filter.Some? && CreateFilter(filter.value).None? ==> r.None?
      ensures filter.Some? && CreateFilter(filter.value).Some? ==> r == Some(Listed(configs, CreateFilter(filter.value)))
    {
      var parsed: Option<ParsedFilter> := None;
      if filter.Some? {
        parsed := CreateFilter(filter.value);
        if parsed.None? {
          return None;
        }
      }
      var listed := [];
      for i := 0 to |configs|
        invariant listed == Listed(configs[..i], parsed)
      {
        assert configs[..i + 1][..i] == configs[..i];
        if Selected(parsed, configs[i]) {
          listed := listed + [configs[i]];
        }
      }
      assert configs[..|configs|] == configs;
      return Some(listed);
    }

    /** The configuration `pid`, created without properties when there is none. */
    method GetConfiguration(pid: string) returns (c: Configuration)
      requires Valid()
      modifies this
      ensures Valid() && c.pid == pid
      ensures forall i :: 0 <= i < |old(configs)| && old(configs)[i].pid == pid ==>
        c == old(configs)[i] && configs == old(configs)
      ensures (forall i :: 0 <= i < |old(configs)| ==> old(configs)[i].pid != pid) ==>
        c == Configuration(pid, None, None) && configs == old(configs) + [c]
    {
      var i := IndexOf(pid);
      if i < |configs| {
        c := configs[i];
      } else {
        c := Configuration(pid, None, None);
        configs := configs + [c];
      }
    }

    /** A new instance of the factory, under a pid no configuration has. */
    method CreateFactoryConfiguration(factoryPid: string) returns (c: Configuration)
      requires Valid()
      modifies this
      ensures Valid()
      ensures forall i :: 0 <= i < |old(configs)| ==> old(configs)[i].pid != c.pid
      ensures c.factoryPid == Some(factoryPid) && c.properties.None?
      ensures configs == old(configs) + [c]
    {
      var longest: nat := 0;
      for i := 0 to |configs|
        invariant forall j :: 0 <= j < i ==> |configs[j].pid| <= longest
      {
        if |configs[i].pid| > longest {
          longest := |configs[i].pid|;
        }
      }
      var pid := factoryPid + "." + seq(longest, _ => '0');
      c := Configuration(pid, Some(factoryPid), None);
      configs := configs + [c];
    }

    /** Replaces the properties of the configuration `pid`. */
    method Update(pid: string, props: Properties)
      requires Valid()
      modifies this
      ensures Valid()
      ensures configs == WithProperties(old(configs), pid, props)
    {
      configs := WithProperties(configs, pid, props);
    }

    /** Deletes the configuration `pid`. */
    method Delete(pid: string)
      requires Valid()
      modifies this
      ensures Valid()
      ensures configs == Without(old(configs), pid)
    {
      var i := IndexOf(pid);
      if i < |configs| {
        WithoutAt(configs, i);
        configs := configs[..i] + configs[i + 1..];
      } else {
        WithoutAbsent(configs, pid);
      }
    }
  }
}

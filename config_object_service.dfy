/**
 * The configuration resource service: list and read configurations, create,
 * update and delete them by id, with patch and query refused.
 */
module ConfigObjectServices {
  import opened Wrappers
  import opened ResourceErrors
  import opened JavaStrings
  import opened ParsedIds
  import opened ConfigAdmins

  /** Factory configurations of the router are refused. */
  const RouterPid := "org.forgerock.openidm.router"

  /**
   * The factory pids refused as the router's: the router pid spelt with any
   * mix of cases, where `i`, `s` and `k` may also be written as the non-ASCII
   * letters that fold to them.
   */
  lemma RouterPidSpellings(a: string)
    ensures EqualsIgnoreCase(a, RouterPid) <==> |a| == |RouterPid| && forall i :: 0 <= i < |a| ==> FoldsTo(a[i], RouterPid[i])
  {
    EqualsIgnoreCaseLower(a, RouterPid);
  }

  /** One entry of the configuration list. */
  datatype ConfigEntry = ConfigEntry(id: string, pid: string, factoryPid: Option<string>)

  datatype ReadResult = Listing(configurations: seq<ConfigEntry>) | Content(properties: Properties)

  /** The lookup for a parsed id: factory pid and alias, or pid, each qualified. */
  function LookupFor(p: ParsedId, qualify: string -> string): (f: LookupFilter)
    requires p.Valid()
    ensures f.FactoryAlias? <==> p.IsFactoryConfig()
    ensures f.FactoryAlias? ==> f.factoryPid == p.PidOrFactoryPid(qualify) && f.alias == p.instanceAlias.value
    ensures f.ServicePid? ==> f.pid == p.PidOrFactoryPid(qualify)
  {
    if p.IsFactoryConfig() then FactoryAlias(qualify(p.factoryPid.value), p.instanceAlias.value)
    else ServicePid(qualify(p.pid.value))
  }

  /** The alias a configuration's properties carry, if any. */
  function AliasOf(c: Configuration): Option<string>
  {
    if c.properties.Some? && AliasKey in c.properties.value then Some(c.properties.value[AliasKey]) else None
  }

  /** A list entry: a factory instance with an alias is listed as `<factory pid>/<alias>`, anything else by its pid. */
  function EntryOf(c: Configuration, unqualify: string -> string): (e: ConfigEntry)
    ensures e.pid == unqualify(c.pid)
    ensures e.factoryPid.Some? <==> c.factoryPid.Some?
    ensures c.factoryPid.Some? && AliasOf(c).Some? ==> e.id == unqualify(c.factoryPid.value) + "/" + AliasOf(c).value
    ensures c.factoryPid.None? || AliasOf(c).None? ==> e.id == e.pid
  {
    var factoryPid := if c.factoryPid.Some? then Some(unqualify(c.factoryPid.value)) else None;
    var alias := AliasOf(c);
    var id := if factoryPid.Some? && alias.Some? then factoryPid.value + "/" + alias.value else unqualify(c.pid);
    ConfigEntry(id, unqualify(c.pid), factoryPid)
  }

  /**
   * A listed factory instance whose names survive unqualifying and
   * requalifying, and hold no backslash or parenthesis, is read back by its
   * list id: the id parses to its factory pid and alias, and the filter for
   * that id is valid and matches the instance.
   */
  lemma ListedFactoryIdReadsBack(c: Configuration, qualify: string -> string, unqualify: string -> string)
    requires c.factoryPid.Some? && AliasOf(c).Some? && c.properties.Some?
    requires IsName(unqualify(c.factoryPid.value)) && IsName(AliasOf(c).value)
    requires qualify(unqualify(c.factoryPid.value)) == c.factoryPid.value
    requires ReadsAsItself(c.factoryPid.value) && ReadsAsItself(AliasOf(c).value)
    ensures var p := ParsedId(None, Some(unqualify(c.factoryPid.value)), AliasOf(c));
      && Parse(EntryOf(c, unqualify).id) == Success(p)
      && CreateFilter(LookupFor(p, qualify)).Some? && Matches(CreateFilter(LookupFor(p, qualify)).value, c)
  {
    var p := ParsedId(None, Some(unqualify(c.factoryPid.value)), AliasOf(c));
    ParseFormat(p);
    LookupMatchesItsNames(LookupFor(p, qualify), c);
  }

  /** The same for a configuration listed under its pid. */
  lemma ListedPidReadsBack(c: Configuration, qualify: string -> string, unqualify: string -> string)
    requires c.factoryPid.None? || AliasOf(c).None?
    requires IsName(unqualify(c.pid)) && qualify(unqualify(c.pid)) == c.pid
    requires ReadsAsItself(c.pid)
    ensures var p := ParsedId(Some(unqualify(c.pid)), None, None);
      && Parse(EntryOf(c, unqualify).id) == Success(p)
      && CreateFilter(LookupFor(p, qualify)).Some? && Matches(CreateFilter(LookupFor(p, qualify)).value, c)
  {
    var p := ParsedId(Some(unqualify(c.pid)), None, None);
    ParseFormat(p);
    LookupMatchesItsNames(LookupFor(p, qualify), c);
  }

  /**
   * The lookup for a parsed id: a filter text that does not parse is an
   * internal error (the syntax exception reaches each caller's generic
   * handler), otherwise the first configuration the filter selects.
   */
  function LookupResult(configs: seq<Configuration>, p: ParsedId, qualify: string -> string): (r: Result<Option<Configuration>, ResourceError>)
    requires p.Valid()
    ensures r.Failure? <==> CreateFilter(LookupFor(p, qualify)).None?
    ensures r.Failure? ==> r.error == InternalServerError
    ensures r.Success? && r.value.Some? ==>
      && r.value.value in configs && r.value.value.properties.Some?
      && Selected(CreateFilter(LookupFor(p, qualify)), r.value.value)
    ensures r.Success? ==> (r.value.None? <==> forall c :: c in configs ==> !Selected(CreateFilter(LookupFor(p, qualify)), c))
  {
    var filter := CreateFilter(LookupFor(p, qualify));
    if filter.None? then Failure(InternalServerError) else Success(FirstMatch(configs, filter.value))
  }

  /** What looking up an id yields: a malformed id is a bad request, otherwise the lookup for the parsed id. */
  function FindExisting(configs: seq<Configuration>, fullId: string, qualify: string -> string): (r: Result<Option<Configuration>, ResourceError>)
    ensures Parse(fullId).Failure? ==> r == Failure(BadRequest)
    ensures r.Failure? ==> r.error in {BadRequest, InternalServerError}
    ensures r.Success? && r.value.Some? ==> r.value.value in configs && r.value.value.properties.Some?
  {
    var parsed := Parse(fullId);
    if parsed.Failure? then Failure(BadRequest) else LookupResult(configs, parsed.value, qualify)
  }

  /**
   * For ids whose qualified names hold none of `\`, `*`, `(` and `)`, the
   * lookup finds exactly the configurations with properties carrying those
   * names.
   */
  lemma PlainIdLookup(configs: seq<Configuration>, p: ParsedId, qualify: string -> string)
    requires p.Valid()
    requires var f := LookupFor(p, qualify); if f.FactoryAlias? then Plain(f.factoryPid) && Plain(f.alias) else Plain(f.pid)
    ensures var r := LookupResult(configs, p, qualify);
      && r.Success?
      && (r.value.Some? ==> Names(LookupFor(p, qualify), r.value.value))
      && (r.value.None? <==> forall c :: c in configs && c.properties.Some? ==> !Names(LookupFor(p, qualify), c))
  {
    var f := LookupFor(p, qualify);
    PlainLookupIsExact(f, Configuration("", None, None));
    forall c | c in configs
      ensures Matches(CreateFilter(f).value, c) <==> Names(f, c)
    {
      PlainLookupIsExact(f, c);
    }
  }

  /** The check update and delete make on the configuration found: it must exist and have properties. */
  function ExistingCheck(found: Option<Configuration>): (r: Outcome<ResourceError>)
    ensures r.Pass? <==> found.Some? && found.value.properties.Some?
    ensures r.Fail? ==> r.error == NotFound
  {
    if found.None? || found.value.properties.None? then Fail(NotFound) else Pass
  }

  /** Delete's check as written: reading the properties of a missing configuration fails as an internal error. */
  function DeleteCheckAsWritten(found: Option<Configuration>): (r: Outcome<ResourceError>)
    ensures found.None? ==> r == Fail(InternalServerError)
  {
    if found.None? then Fail(InternalServerError)
    else if found.value.properties.None? then Fail(NotFound)
    else Pass
  }

  /**
   * Deleting an id nothing matches fails as an internal error where update
   * reports it as not found; on every configuration that does exist the two
   * checks agree.
   */
  lemma DeleteOfMissingIsInternalError(found: Option<Configuration>)
    ensures found.None? ==> DeleteCheckAsWritten(found) == Fail(InternalServerError) && ExistingCheck(found) == Fail(NotFound)
    ensures found.Some? ==> DeleteCheckAsWritten(found) == ExistingCheck(found)
  {
  }

  class ConfigObjectService {
    const admin: ConfigurationAdmin
    /** Prefixes a pid with the default context when it has none. */
    const qualify: string -> string
    const unqualify: string -> string
    /** Encrypts the new content for `(pid, alias)`, merged into the existing properties. */
    const encrypt: (string, Option<string>, Option<Properties>, Properties) -> Properties
    /** Decrypts and resolves a configuration's properties for reading. */
    const enhance: (Properties, string) -> Properties

    constructor (admin: ConfigurationAdmin, qualify: string -> string, unqualify: string -> string,
                 encrypt: (string, Option<string>, Option<Properties>, Properties) -> Properties,
                 enhance: (Properties, string) -> Properties)
      ensures this.admin == admin && this.qualify == qualify && this.unqualify == unqualify
      ensures this.encrypt == encrypt && this.enhance == enhance
    {
      this.admin := admin;
      this.qualify := qualify;
      this.unqualify := unqualify;
      this.encrypt := encrypt;
      this.enhance := enhance;
    }

    /** The first configuration with properties that the id's filter selects. */
    method FindExistingConfiguration(fullId: string) returns (r: Result<Option<Configuration>, ResourceError>)
      ensures r == FindExisting(admin.configs, fullId, qualify)
    {
      var parsed := NewParsedId(fullId);
      if parsed.Failure? {
        return Failure(parsed.error);
      }
      var filter := LookupFor(parsed.value, qualify);
      var configurations := admin.ListConfigurations(Some(filter));
      if configurations.None? {
        return Failure(InternalServerError);
      }
      if |configurations.value| > 0 {
        return Success(Some(configurations.value[0]));
      }
      return Success(None);
    }

    /** Without an id, lists every configuration that has properties; with one, reads that configuration. */
    method Read(fullId: Option<string>) returns (r: Result<ReadResult, ResourceError>)
      ensures fullId.None? ==> r.Success? && r.value.Listing?
      ensures fullId.None? ==> var listed := Listed(admin.configs, None);
        |r.value.configurations| == |listed|
        && forall i :: 0 <= i < |listed| ==> r.value.configurations[i] == EntryOf(listed[i], unqualify)
      ensures fullId.Some? ==>
        var found := FindExisting(admin.configs, fullId.value, qualify);
        && (found.Failure? ==> r == Failure(found.error))
        && (found == Success(None) ==> r == Failure(NotFound))
        && (found.Success? && found.value.Some? ==> r == Success(Content(enhance(found.value.value.properties.value, fullId.value))))
    {
      if fullId.None? {
        var listing := admin.ListConfigurations(None);
        var rawConfigs := listing.value;
        var configList: seq<ConfigEntry> := [];
        for i := 0 to |rawConfigs|
          invariant |configList| == i
          invariant forall j :: 0 <= j < i ==> configList[j] == EntryOf(rawConfigs[j], unqualify)
        {
          configList := configList + [EntryOf(rawConfigs[i], unqualify)];
        }
        return Success(Listing(configList));
      }
      var found := FindExistingConfiguration(fullId.value);
      if found.Failure? {
        return Failure(found.error);
      }
      if found.value.None? {
        return Failure(NotFound);
      }
      var config := found.value.value;
      return Success(Content(enhance(config.properties.value, fullId.value)));
    }

    /**
     * Creates the configuration `fullId` with `content`. A factory id gets a
     * new instance carrying its alias; a pid gets the configuration of that
     * pid, which must not have properties yet.
     */
    method Create(fullId: Option<string>, content: Properties) returns (r: Outcome<ResourceError>)
      requires admin.Valid()
      modifies admin
      ensures admin.Valid()
      ensures fullId.None? || Parse(fullId.value).Failure? ==> r == Fail(BadRequest) && admin.configs == old(admin.configs)
      ensures fullId.Some? && Parse(fullId.value).Success? && Parse(fullId.value).value.IsFactoryConfig() ==>
        var p := Parse(fullId.value).value;
        var qualified := qualify(p.factoryPid.value);
        if EqualsIgnoreCase(qualified, RouterPid) then
          r == Fail(BadRequest) && admin.configs == old(admin.configs)
        else
          && r == Pass
          && |admin.configs| == |old(admin.configs)| + 1
          && admin.configs[..|old(admin.configs)|] == old(admin.configs)
          && var c := admin.configs[|old(admin.configs)|];
          && (forall i :: 0 <= i < |old(admin.configs)| ==> old(admin.configs)[i].pid != c.pid)
          && c.factoryPid == Some(qualified)
          && c.properties == Some(encrypt(qualified, p.instanceAlias, None, content)[AliasKey := p.instanceAlias.value])
      ensures fullId.Some? && Parse(fullId.value).Success? && !Parse(fullId.value).value.IsFactoryConfig() ==>
        var qualified := qualify(Parse(fullId.value).value.pid.value);
        var props := encrypt(qualified, None, None, content);
        if exists i :: 0 <= i < |old(admin.configs)| && old(admin.configs)[i].pid == qualified
                       && old(admin.configs)[i].properties.Some? then
          r == Fail(PreconditionFailed) && admin.configs == old(admin.configs)
        else if exists i :: 0 <= i < |old(admin.configs)| && old(admin.configs)[i].pid == qualified then
          r == Pass && admin.configs == WithProperties(old(admin.configs), qualified, props)
        else
          r == Pass && admin.configs == old(admin.configs) + [Configuration(qualified, None, Some(props))]
      ensures r.Pass? ==> fullId.Some? && Parse(fullId.value).Success?
      ensures r.Pass? && LookupReadsAsItself(LookupFor(Parse(fullId.value).value, qualify)) ==>
        LookupResult(admin.configs, Parse(fullId.value).value, qualify).Success?
        && LookupResult(admin.configs, Parse(fullId.value).value, qualify).value.Some?
    {
      if fullId.None? {
        return Fail(BadRequest);
      }
      var parsed := NewParsedId(fullId.value);
      if parsed.Failure? {
        return Fail(parsed.error);
      }
      if parsed.value.IsFactoryConfig() {
        r := CreateFactoryInstance(parsed.value, content);
      } else {
        r := CreateServiceConfiguration(parsed.value, content);
      }
    }

    /** The properties a created configuration is given: the encrypted content, plus the alias of a factory instance. */
    function NewProperties(p: ParsedId, content: Properties): Properties
      requires p.Valid()
    {
      var dict := encrypt(p.PidOrFactoryPid(qualify), p.instanceAlias, None, content);
      if p.IsFactoryConfig() then dict[AliasKey := p.instanceAlias.value] else dict
    }

    /** The factory branch of `Create`: the new instance is fresh, so it never already has properties. */
    method CreateFactoryInstance(p: ParsedId, content: Properties) returns (r: Outcome<ResourceError>)
      requires admin.Valid() && WellFormed(p) && p.IsFactoryConfig()
      modifies admin
      ensures admin.Valid()
      ensures var qualified := qualify(p.factoryPid.value);
        if EqualsIgnoreCase(qualified, RouterPid) then
          r == Fail(BadRequest) && admin.configs == old(admin.configs)
        else
          && r == Pass
          && |admin.configs| == |old(admin.configs)| + 1
          && admin.configs[..|old(admin.configs)|] == old(admin.configs)
          && var c := admin.configs[|old(admin.configs)|];
          && (forall i :: 0 <= i < |old(admin.configs)| ==> old(admin.configs)[i].pid != c.pid)
          && c.factoryPid == Some(qualified)
          && c.properties == Some(encrypt(qualified, p.instanceAlias, None, content)[AliasKey := p.instanceAlias.value])
      ensures r.Pass? && LookupReadsAsItself(LookupFor(p, qualify)) ==>
        LookupResult(admin.configs, p, qualify).Success? && LookupResult(admin.configs, p, qualify).value.Some?
    {
      var qualifiedFactoryPid := qualify(p.factoryPid.value);
      if EqualsIgnoreCase(qualifiedFactoryPid, RouterPid) {
        return Fail(BadRequest);
      }
      var config := admin.CreateFactoryConfiguration(qualifiedFactoryPid);
      var dict := NewProperties(p, content);
      ghost var before := admin.configs;
      admin.Update(config.pid, dict);
      assert admin.configs[..|old(admin.configs)|] == old(admin.configs) by {
        forall i | 0 <= i < |old(admin.configs)| ensures admin.configs[i] == old(admin.configs)[i] {
          assert before[i] == old(admin.configs)[i];
        }
      }
      if LookupReadsAsItself(LookupFor(p, qualify)) {
        CreatedIsFound(before, admin.configs, config, dict, LookupFor(p, qualify));
      }
      r := Pass;
    }

    /** The pid branch of `Create`: the configuration of the pid, unless it already has properties. */
    method CreateServiceConfiguration(p: ParsedId, content: Properties) returns (r: Outcome<ResourceError>)
      requires admin.Valid() && WellFormed(p) && !p.IsFactoryConfig()
      modifies admin
      ensures admin.Valid()
      ensures var qualified := qualify(p.pid.value);
        var props := encrypt(qualified, None, None, content);
        if exists i :: 0 <= i < |old(admin.configs)| && old(admin.configs)[i].pid == qualified
                       && old(admin.configs)[i].properties.Some? then
          r == Fail(PreconditionFailed) && admin.configs == old(admin.configs)
        else if exists i :: 0 <= i < |old(admin.configs)| && old(admin.configs)[i].pid == qualified then
          r == Pass && admin.configs == WithProperties(old(admin.configs), qualified, props)
        else
          r == Pass && admin.configs == old(admin.configs) + [Configuration(qualified, None, Some(props))]
      ensures r.Pass? && LookupReadsAsItself(LookupFor(p, qualify)) ==>
        LookupResult(admin.configs, p, qualify).Success? && LookupResult(admin.configs, p, qualify).value.Some?
    {
      var qualified := qualify(p.pid.value);
      var config := admin.GetConfiguration(qualified);
      if config.properties.Some? {
        return Fail(PreconditionFailed);
      }
      var dict := NewProperties(p, content);
      ghost var before := admin.configs;
      admin.Update(config.pid, dict);
      if LookupReadsAsItself(LookupFor(p, qualify)) {
        CreatedIsFound(before, admin.configs, config, dict, LookupFor(p, qualify));
      }
      r := Pass;
    }

    /** Replaces the content of the existing configuration `fullId`. */
    method Update(fullId: Option<string>, content: Properties) returns (r: Outcome<ResourceError>)
      requires admin.Valid()
      modifies admin
      ensures admin.Valid()
      ensures fullId.None? || Parse(fullId.value).Failure? ==> r == Fail(BadRequest) && admin.configs == old(admin.configs)
      ensures fullId.Some? && Parse(fullId.value).Success? ==>
        var p := Parse(fullId.value).value;
        var found := LookupResult(old(admin.configs), p, qualify);
        && (found.Failure? ==> r == Fail(found.error) && admin.configs == old(admin.configs))
        && (found.Success? ==> r == ExistingCheck(found.value))
        && (r.Fail? ==> admin.configs == old(admin.configs))
        && (r.Pass? ==> admin.configs == WithProperties(old(admin.configs), found.value.value.pid,
                          encrypt(p.PidOrFactoryPid(qualify), p.instanceAlias, found.value.value.properties, content)))
    {
      if fullId.None? {
        return Fail(BadRequest);
      }
      var parsed := NewParsedId(fullId.value);
      if parsed.Failure? {
        return Fail(parsed.error);
      }
      var p := parsed.value;
      var found := FindExistingConfiguration(fullId.value);
      if found.Failure? {
        return Fail(found.error);
      }
      r := ExistingCheck(found.value);
      if r.Fail? {
        return;
      }
      var config := found.value.value;
      var existingConfig := encrypt(p.PidOrFactoryPid(qualify), p.instanceAlias, config.properties, content);
      admin.Update(config.pid, existingConfig);
    }

    /** Deletes the existing configuration `fullId`. */
    method Delete(fullId: Option<string>) returns (r: Outcome<ResourceError>)
      requires admin.Valid()
      modifies admin
      ensures admin.Valid()
      ensures fullId.None? || Parse(fullId.value).Failure? ==> r == Fail(BadRequest) && admin.configs == old(admin.configs)
      ensures fullId.Some? && Parse(fullId.value).Success? ==>
        var found := LookupResult(old(admin.configs), Parse(fullId.value).value, qualify);
        && (found.Failure? ==> r == Fail(found.error) && admin.configs == old(admin.configs))
        && (found.Success? ==> r == ExistingCheck(found.value))
        && (r.Fail? ==> admin.configs == old(admin.configs))
        && (r.Pass? ==> admin.configs == Without(old(admin.configs), found.value.value.pid))
    {
      if fullId.None? {
        return Fail(BadRequest);
      }
      var found := FindExistingConfiguration(fullId.value);
      if found.Failure? {
        return Fail(found.error);
      }
      r := ExistingCheck(found.value);
      if r.Fail? {
        return;
      }
      admin.Delete(found.value.value.pid);
    }

    method HandlePatch() returns (r: Outcome<ResourceError>)
      ensures r == Fail(NotSupported)
    {
      r := Fail(NotSupported);
    }

    method HandleQuery() returns (r: Outcome<ResourceError>)
      ensures r == Fail(NotSupported)
    {
      r := Fail(NotSupported);
    }
  }

  /**
   * A configuration that just received properties carrying a lookup's names
   * is found by that lookup, when the names read as themselves in the filter.
   */
  lemma CreatedIsFound(before: seq<Configuration>, after: seq<Configuration>, c: Configuration, props: Properties, f: LookupFilter)
    requires c in before
    requires after == WithProperties(before, c.pid, props)
    requires LookupReadsAsItself(f) && Names(f, c.(properties := Some(props)))
    ensures CreateFilter(f).Some? && FirstMatch(after, CreateFilter(f).value).Some?
  {
    var i :| 0 <= i < |before| && before[i] == c;
    assert after[i] == c.(properties := Some(props));
    LookupMatchesItsNames(f, after[i]);
    assert after[i] in after && Selected(CreateFilter(f), after[i]);
  }
}

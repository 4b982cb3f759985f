/**
 * Configuration resource ids: `<pid>` names a managed service configuration
 * and `<factory pid>/<alias>` one instance of a managed service factory.
 */
module ParsedIds {
  import opened Wrappers
  import opened ResourceErrors
  import opened JavaStrings

  datatype ParsedId = ParsedId(pid: Option<string>, factoryPid: Option<string>, instanceAlias: Option<string>)
  {
    /** Exactly one of the two pids is set, and the alias comes with the factory pid. */
    predicate Valid()
    {
      pid.Some? != factoryPid.Some? && (factoryPid.Some? <==> instanceAlias.Some?)
    }

    predicate IsFactoryConfig()
    {
      instanceAlias.Some?
    }

    /** The qualified pid of a service configuration, or the qualified factory pid of a factory one. */
    function PidOrFactoryPid(qualify: string -> string): string
      requires Valid()
    {
      if IsFactoryConfig() then qualify(factoryPid.value) else qualify(pid.value)
    }

    /** The form used in error messages. */
    function ToString(): string
      requires Valid()
    {
      if IsFactoryConfig() then factoryPid.value + "-" + instanceAlias.value else pid.value
    }
  }

  /** A name as the parser leaves it: not empty, no '/', and no trimmed character at either end. */
  predicate IsName(x: string)
  {
    x != [] && '/' !in x && !IsTrimmed(x[0]) && !IsTrimmed(x[|x| - 1])
  }

  /** Every name the id holds is one the parser could have produced. */
  predicate WellFormed(p: ParsedId)
  {
    && p.Valid()
    && (p.pid.Some? ==> IsName(p.pid.value))
    && (p.factoryPid.Some? ==> IsName(p.factoryPid.value))
    && (p.instanceAlias.Some? ==> IsName(p.instanceAlias.value))
  }

  /** The id as the configuration list shows it: `<factory pid>/<alias>`, or the pid. */
  function Format(p: ParsedId): string
    requires p.Valid()
  {
    if p.IsFactoryConfig() then p.factoryPid.value + "/" + p.instanceAlias.value else p.pid.value
  }

  /**
   * The '/'-separated clauses of an id; an id with a leading '/' first loses
   * every '/'. There is always at least one clause.
   */
  function Clauses(fullId: string): (r: seq<string>)
    ensures |r| >= 1
    ensures forall i :: 0 <= i < |r| ==> '/' !in r[i]
  {
    var s := if fullId != [] && fullId[0] == '/' then RemoveAll(fullId, '/') else fullId;
    if '/' in s then
      SplitAllFirstPiece(s, '/');
      JavaSplit(s, '/')
    else
      JavaSplit(s, '/')
  }

  /**
   * Parses a configuration id. One clause is a pid; two clauses are a factory
   * pid and an alias, unless the alias is blank, in which case the id is the
   * first clause's pid. More clauses, or a blank first clause, are a bad
   * request.
   */
  function Parse(fullId: string): (r: Result<ParsedId, ResourceError>)
    ensures r.Success? ==> WellFormed(r.value)
    ensures r.Failure? ==> r.error == BadRequest
    ensures r.Failure? <==> |Clauses(fullId)| > 2 || Trim(Clauses(fullId)[0]) == ""
    ensures r.Success? ==> r.value.IsFactoryConfig() == (|Clauses(fullId)| == 2 && Trim(Clauses(fullId)[1]) != "")
    ensures r.Success? && r.value.IsFactoryConfig() ==>
      var cl := Clauses(fullId);
      r.value == ParsedId(None, Some(Trim(cl[0])), Some(Trim(cl[1])))
    ensures r.Success? && !r.value.IsFactoryConfig() ==> r.value == ParsedId(Some(Trim(Clauses(fullId)[0])), None, None)
  {
    var clauses := Clauses(fullId);
    if |clauses| > 2 then Failure(BadRequest)
    else
      var alias := if |clauses| == 2 && Trim(clauses[1]) != "" then Some(Trim(clauses[1])) else None;
      var name := Trim(clauses[0]);
      if name == "" then Failure(BadRequest)
      else if alias.None? then Success(ParsedId(Some(name), None, None))
      else Success(ParsedId(None, Some(name), alias))
  }

  /**
   * The constructor as written: drop every '/' of an id that starts with one,
   * split, reject zero or more than two clauses, then the two-clause case
   * (take a non-blank alias) falling through to the one-clause case (the
   * trimmed first clause is the pid, or the factory pid when an alias was
   * taken; blank is a bad request).
   */
  method NewParsedId(fullId: string) returns (r: Result<ParsedId, ResourceError>)
    ensures r == Parse(fullId)
  {
    var id := fullId;
    if id != [] && id[0] == '/' {
      id := RemoveAll(id, '/');
    }
    var clauses := JavaSplit(id, '/');
    assert clauses == Clauses(fullId);
    if 0 == |clauses| || |clauses| > 2 {
      return Failure(BadRequest);
    }
    var pid: Option<string> := None;
    var factoryPid: Option<string> := None;
    var instanceAlias: Option<string> := None;
    if |clauses| == 2 {
      if Trim(clauses[1]) != "" {
        instanceAlias := Some(Trim(clauses[1]));
      }
    }
    if Trim(clauses[0]) == "" {
      return Failure(BadRequest);
    }
    if instanceAlias.None? {
      pid := Some(Trim(clauses[0]));
    } else {
      factoryPid := Some(Trim(clauses[0]));
    }
    return Success(ParsedId(pid, factoryPid, instanceAlias));
  }

  /** The pid or factory pid of a parsed id is always its first clause, trimmed. */
  lemma NameIsFirstClause(fullId: string, qualify: string -> string)
    requires Parse(fullId).Success?
    ensures Parse(fullId).value.PidOrFactoryPid(qualify) == qualify(Trim(Clauses(fullId)[0]))
  {
  }

  lemma NameSplitsAlone(x: string)
    requires IsName(x)
    ensures Clauses(x) == [x] && Trim(x) == x
  {
    TrimOfTrimmed(x);
  }

  /** Parsing inverts `Format` on well-formed ids: list-mode ids can be read back. */
  lemma ParseFormat(p: ParsedId)
    requires WellFormed(p)
    ensures Parse(Format(p)) == Success(p)
  {
    if p.IsFactoryConfig() {
      var f, a := p.factoryPid.value, p.instanceAlias.value;
      JavaSplitPair(f, '/', a);
      assert Clauses(Format(p)) == [f, a];
      TrimOfTrimmed(f);
      TrimOfTrimmed(a);
    } else {
      NameSplitsAlone(p.pid.value);
    }
  }

  /** Whatever parses, parses again the same way from its list-mode form. */
  lemma ParseCanonical(fullId: string)
    requires Parse(fullId).Success?
    ensures Parse(Format(Parse(fullId).value)) == Parse(fullId)
  {
    ParseFormat(Parse(fullId).value);
  }

  /** An id with a leading '/' is never a factory id: all its '/' vanish and the rest is one pid. */
  lemma LeadingSlashIsOnePid(fullId: string)
    requires fullId != [] && fullId[0] == '/'
    ensures var rest := Trim(RemoveAll(fullId, '/'));
      Parse(fullId) == if rest == "" then Failure(BadRequest) else Success(ParsedId(Some(rest), None, None))
  {
  }

  /** Two '/' between names are a bad request. */
  lemma ThreeClausesRejected(a: string, b: string, c: string)
    requires IsName(a) && IsName(b) && IsName(c)
    ensures Parse(a + "/" + b + "/" + c) == Failure(BadRequest)
  {
    var tail := b + ['/'] + c;
    var s := a + ['/'] + tail;
    assert SplitAll(s, '/') == [a, b, c] by {
      SplitAllCons(b, '/', c);
      SplitAllWithout(c, '/');
      SplitAllCons(a, '/', tail);
    }
    assert Clauses(s) == [a, b, c] by {
      assert s[|a|] == '/' && s[0] == a[0];
    }
    assert s == a + "/" + b + "/" + c;
  }

  /** A blank alias is dropped: `<pid>/ ` is the service configuration `<pid>`. */
  lemma BlankAliasIsPid(p: string, blank: string)
    requires IsName(p) && blank != [] && '/' !in blank
    requires forall i :: 0 <= i < |blank| ==> IsTrimmed(blank[i])
    ensures Parse(p + "/" + blank) == Success(ParsedId(Some(p), None, None))
  {
    JavaSplitPair(p, '/', blank);
    TrimOfTrimmed(p);
  }

  /** The message form of a factory id is not its resource id: the alias follows a '-', not a '/'. */
  lemma ToStringDiffersForFactories(p: ParsedId)
    requires WellFormed(p)
    ensures p.IsFactoryConfig() ==> p.ToString() != Format(p)
    ensures !p.IsFactoryConfig() ==> p.ToString() == Format(p)
  {
    if p.IsFactoryConfig() {
      var f := p.factoryPid.value;
      assert p.ToString()[|f|] == '-' && Format(p)[|f|] == '/';
    }
  }
}

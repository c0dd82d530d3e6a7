/*
 * The Google Cloud secrets provider of secrets-init: it rewrites the
 * `KEY=VALUE` environment entries whose value is a
 * `gcp:secretmanager:` reference into `KEY=<secret payload>`.
 *
 * The Secret Manager client is the object `sm` of the provider: a call
 * AccessSecretVersion(name) returns sm.answer(name) and adds `name` to the
 * client's log. Metadata discovery and client creation enter construction
 * as input values.
 */
module GoogleSecrets {
  import opened GoStrings

  datatype Option<T> = None | Some(value: T)

  datatype Result<T, E> = Ok(value: T) | Err(error: E)

  /** The scheme tag a value must start with to be resolved. */
  const Tag := "gcp:secretmanager:"
  /** The text whose presence anywhere in a name counts as "a version is given". */
  const VersionsMarker := "/versions/"
  /** The default version, appended to names without one. */
  const LatestVersion := "/versions/latest"

  /** What one AccessSecretVersion call gives: the payload as text, or a failure. */
  datatype FetchResult = Payload(data: string) | FetchError(cause: string)

  /**
   * The Secret Manager client. `answer` is what the store gives for each
   * resource name; `log` is every name sent to it so far, in order.
   */
  class SecretManagerClient {
    const answer: string -> FetchResult
    ghost var log: seq<string>

    constructor(answer: string -> FetchResult)
      ensures this.answer == answer && log == []
    {
      this.answer := answer;
      log := [];
    }

    /** AccessSecretVersion: one request for `name`, answered by the store and logged. */
    method AccessSecretVersion(name: string) returns (r: FetchResult)
      modifies this
      ensures r == answer(name)
      ensures log == old(log) + [name]
    {
      r := answer(name);
      log := log + [name];
    }
  }

  /** The provider struct: its client and its project, fixed at construction. */
  datatype SecretsProvider = SecretsProvider(sm: SecretManagerClient, projectID: string)

  datatype Error =
    | InitFailed(cause: string)      // the client could not be created
    | UnknownProject(name: string)   // a short name, and no project to put it under
    | FetchFailed(cause: string)     // the store refused a name; the cause is wrapped

  // ---------------------------------------------------------------------
  // The long-form test: regexp `projects/[^/]+/secrets/[^/+](/version/[^/+])?`
  // matched anywhere in the name. The optional group cannot change whether
  // the expression matches, so it has no part here.
  // ---------------------------------------------------------------------

  /**
   * The expression matches at `i`: `projects/` there, then a run of
   * characters other than `/` up to `j`, `/secrets/` at `j`, then one
   * character that is neither `/` nor `+`.
   */
  ghost predicate LongAt(name: string, i: int, j: int) {
    0 <= i && i + 9 < j && j + 9 < |name| &&
    name[i..i + 9] == "projects/" &&
    (forall k :: i + 9 <= k < j ==> name[k] != '/') &&
    name[j..j + 9] == "/secrets/" &&
    name[j + 9] != '/' && name[j + 9] != '+'
  }

  /** The unanchored match of the long-form expression. */
  ghost predicate MatchesLongForm(name: string) {
    exists i, j :: LongAt(name, i, j)
  }

  /**
   * The expression matches starting at `i`. Since `[^/]+` cannot pass a `/`,
   * the only candidate for `/secrets/` is the first `/` after `projects/`.
   */
  predicate LongAtStart(name: string, i: nat) {
    i + 9 <= |name| && name[i..i + 9] == "projects/" &&
    var j := i + 9 + IndexOf(name[i + 9..], '/');
    i + 9 < j && j + 9 < |name| && name[j..j + 9] == "/secrets/" &&
    name[j + 9] != '/' && name[j + 9] != '+'
  }

  /**
   * The expression matches at some position from `i` on; a match needs at
   * least 20 characters from its start.
   */
  function LongFrom(name: string, i: nat): (b: bool)
    ensures b ==> i + 20 <= |name|
    decreases |name| - i
  {
    i < |name| && (LongAtStart(name, i) || LongFrom(name, i + 1))
  }

  /**
   * fullSecretRe.MatchString(name). The shortest match is
   * `projects/?/secrets/?`, so shorter names are never long; IsLongIff gives
   * its exact meaning.
   */
  function IsLong(name: string): (b: bool)
    ensures b ==> 20 <= |name|
  {
    LongFrom(name, 0)
  }

  /** In a match at `i`, `/secrets/` starts at the first `/` after `projects/`. */
  lemma LongAtFirstSlash(name: string, i: nat, j: int)
    requires LongAt(name, i, j)
    ensures j == i + 9 + IndexOf(name[i + 9..], '/')
  {
    var tail := name[i + 9..];
    var r := IndexOf(tail, '/');
    var d := j - (i + 9);
    assert name[j..j + 9][0] == '/';
    assert tail[d] == name[j] == '/';
    assert r <= d;
    assert tail[r] == name[i + 9 + r] == '/';
  }

  /** The computed match at `i` is a match of the expression. */
  lemma LongAtStartMatches(name: string, i: nat)
    requires LongAtStart(name, i)
    ensures LongAt(name, i, i + 9 + IndexOf(name[i + 9..], '/'))
  {
    var tail := name[i + 9..];
    var j0 := i + 9 + IndexOf(tail, '/');
    forall k | i + 9 <= k < j0 ensures name[k] != '/' {
      assert name[k] == tail[k - (i + 9)];
    }
  }

  lemma LongAtStartIff(name: string, i: nat)
    ensures LongAtStart(name, i) <==> exists j :: LongAt(name, i, j)
  {
    if LongAtStart(name, i) {
      LongAtStartMatches(name, i);
    }
    forall j | LongAt(name, i, j) ensures LongAtStart(name, i) {
      LongAtFirstSlash(name, i, j);
    }
  }

  lemma {:induction false} LongFromIff(name: string, i: nat)
    ensures LongFrom(name, i) <==> exists i', j :: i <= i' && LongAt(name, i', j)
    decreases |name| - i
  {
    LongAtStartIff(name, i);
    if i < |name| {
      LongFromIff(name, i + 1);
      forall i', j | i <= i' && LongAt(name, i', j) && i' != i ensures i + 1 <= i' { }
    }
  }

  /** The hand-coded matcher agrees with the expression's semantics on every name. */
  lemma IsLongIff(name: string)
    ensures IsLong(name) <==> MatchesLongForm(name)
  {
    LongFromIff(name, 0);
  }

  /**
   * The match is structural only and unanchored: any name that has a
   * `projects/<p>/secrets/<c>` piece somewhere is long, whatever surrounds it.
   */
  lemma LongFormAnywhere(pre: string, p: string, s: string, post: string)
    requires p != [] && '/' !in p && s != [] && s[0] != '/' && s[0] != '+'
    ensures IsLong(pre + "projects/" + p + "/secrets/" + s + post)
  {
    var name := pre + "projects/" + p + "/secrets/" + s + post;
    var i, j := |pre|, |pre| + 9 + |p|;
    assert name[i..i + 9] == "projects/";
    assert name[j..j + 9] == "/secrets/";
    assert name[i + 9..j] == p;
    assert name[j + 9] == s[0];
    assert LongAt(name, i, j);
    IsLongIff(name);
  }

  /** In particular the documented form `projects/{P}/secrets/{S}` is long. */
  lemma QualifiedIsLong(p: string, s: string)
    requires p != [] && '/' !in p && s != [] && s[0] != '/' && s[0] != '+'
    ensures IsLong("projects/" + p + "/secrets/" + s)
  {
    LongFormAnywhere("", p, s, "");
    assert "" + "projects/" + p + "/secrets/" + s + "" == "projects/" + p + "/secrets/" + s;
  }

  // ---------------------------------------------------------------------
  // Name normalisation
  // ---------------------------------------------------------------------

  /** Lines 65-72: a name that is not long is placed under the provider's project. */
  function Qualify(name: string, projectID: string): (r: Result<string, Error>)
    ensures r.Err? <==> !IsLong(name) && projectID == ""
    ensures r.Err? ==> r.error == UnknownProject(name)
    ensures IsLong(name) ==> r == Ok(name)
    ensures !IsLong(name) && projectID != "" ==> r == Ok("projects/" + projectID + "/secrets/" + name)
  {
    if IsLong(name) then Ok(name)
    else if projectID == "" then Err(UnknownProject(name))
    else Ok("projects/" + projectID + "/secrets/" + name)
  }

  /** Lines 74-77: a name without `/versions/` gets `/versions/latest`. */
  function WithDefaultVersion(name: string): (r: string)
    ensures Contains(r, VersionsMarker)
    ensures HasPrefix(r, name)
    ensures Contains(name, VersionsMarker) ==> r == name
    ensures !Contains(name, VersionsMarker) ==> r == name + LatestVersion
  {
    if Contains(name, VersionsMarker) then name
    else
      assert name + LatestVersion == name + VersionsMarker + "latest";
      ContainsInContext(name, VersionsMarker, "latest", VersionsMarker);
      name + LatestVersion
  }

  /** The name handed to AccessSecretVersion for the reference `name`. */
  function Normalize(name: string, projectID: string): (r: Result<string, Error>)
    ensures r.Err? <==> !IsLong(name) && projectID == ""
    ensures r.Err? ==> r.error == UnknownProject(name)
    ensures r.Ok? ==> Contains(r.value, VersionsMarker)
  {
    match Qualify(name, projectID)
    case Err(e) => Err(e)
    case Ok(n) => Ok(WithDefaultVersion(n))
  }

  /** Defaulting the version twice is the same as once. */
  lemma WithDefaultVersionIdempotent(name: string)
    ensures WithDefaultVersion(WithDefaultVersion(name)) == WithDefaultVersion(name)
  {
  }

  /** A long name is never rewritten with the provider's project, whatever it is. */
  lemma LongNameIgnoresProject(name: string, p1: string, p2: string)
    requires IsLong(name)
    ensures Normalize(name, p1) == Normalize(name, p2) == Ok(WithDefaultVersion(name))
  {
  }

  /** A short name under a known project becomes `projects/{P}/secrets/{name}`, then versioned. */
  lemma ShortNameUnderProject(name: string, projectID: string)
    requires !IsLong(name) && projectID != ""
    ensures Normalize(name, projectID).Ok?
    ensures HasPrefix(Normalize(name, projectID).value, "projects/" + projectID + "/secrets/" + name)
  {
  }

  /** A short name whose qualified form has no `/versions/` gets the latest version. */
  lemma ShortNameDefaultVersion(name: string, projectID: string)
    requires !IsLong(name) && projectID != ""
    requires !Contains("projects/" + projectID + "/secrets/" + name, VersionsMarker)
    ensures Normalize(name, projectID) == Ok("projects/" + projectID + "/secrets/" + name + LatestVersion)
  {
  }

  /**
   * The documented short form `{SECRET_NAME}/versions/{VERSION}` is placed
   * under the project and keeps its version.
   */
  lemma VersionedShortName(secret: string, version: string, projectID: string)
    requires !IsLong(secret + VersionsMarker + version) && projectID != ""
    ensures Normalize(secret + VersionsMarker + version, projectID)
            == Ok("projects/" + projectID + "/secrets/" + secret + VersionsMarker + version)
  {
    var q := "projects/" + projectID + "/secrets/" + secret;
    assert Contains(VersionsMarker, VersionsMarker);
    ContainsInContext(q, VersionsMarker, version, VersionsMarker);
    assert q + VersionsMarker + version == "projects/" + projectID + "/secrets/" + (secret + VersionsMarker + version);
  }

  /**
   * A long name without a version, such as the documented form
   * `projects/{P}/secrets/{S}`, gets the latest version and is not touched
   * otherwise, under any provider project.
   */
  lemma UnversionedLongName(name: string, projectID: string)
    requires IsLong(name) && !Contains(name, VersionsMarker)
    ensures Normalize(name, projectID) == Ok(name + LatestVersion)
  {
  }

  // ---------------------------------------------------------------------
  // One environment entry
  // ---------------------------------------------------------------------

  /** Every entry the pass is given holds a `=`: kv[1] exists. */
  predicate HasSeparator(env: string) {
    '=' in env
  }

  /** kv[0] of strings.Split(env, "="): the text before the first `=`. */
  function Key(env: string): string
    requires HasSeparator(env)
  {
    Split(env, '=')[0]
  }

  /** kv[1] of strings.Split(env, "="): the text between the first and second `=`. */
  function Value(env: string): string
    requires HasSeparator(env)
  {
    Split(env, '=')[1]
  }

  /**
   * Every entry starts with its key and a `=`; what follows starts with the
   * value, which ends at the end of the entry or at the next `=`. Neither
   * the key nor the value holds a `=`.
   */
  lemma KeyValueShape(env: string)
    requires HasSeparator(env)
    ensures '=' !in Key(env) && '=' !in Value(env)
    ensures HasPrefix(env, Key(env) + "=")
    ensures var after := env[|Key(env)| + 1..];
            HasPrefix(after, Value(env)) && (|Value(env)| == |after| || after[|Value(env)|] == '=')
  {
    var i := IndexOf(env, '=');
    SplitFieldsLackSeparator(env, '=');
    SecondField(env, '=');
    assert env[..i + 1] == env[..i] + "=" by {
      CutAtIndex(env, '=');
    }
  }

  /**
   * Key and value of `key=value` followed by nothing or by more `=`-fields:
   * the value stops at the second `=`.
   */
  lemma KeyAndValue(key: string, value: string, rest: string)
    requires '=' !in key && '=' !in value
    requires rest == [] || rest[0] == '='
    ensures HasSeparator(key + "=" + value + rest)
    ensures Key(key + "=" + value + rest) == key
    ensures Value(key + "=" + value + rest) == value
  {
    var env := key + "=" + value + rest;
    var tail := value + rest;
    assert env == key + ("=" + tail);
    IndexOfAfter(key, "=" + tail, '=');
    assert env[..|key|] == key;
    assert env[|key| + 1..] == tail;
    IndexOfAfter(value, rest, '=');
    SecondField(env, '=');
    assert tail[..|value|] == value;
  }

  /** What the loop body does with an entry before any fetch. */
  datatype Step =
    | Keep                               // no tag: the entry is copied
    | Reject(error: Error)               // a short name with no project
    | Access(key: string, name: string)  // fetch `name`, then write `key=payload`

  function Classify(projectID: string, env: string): Step
    requires HasSeparator(env)
  {
    var value := Value(env);
    if !HasPrefix(value, Tag) then Keep
    else match Normalize(TrimPrefix(value, Tag), projectID)
      case Err(e) => Reject(e)
      case Ok(name) => Access(Key(env), name)
  }

  /**
   * The three fates of an entry: copied when its value lacks the tag;
   * rejected when it names a short secret and there is no project; otherwise
   * a fetch of the normalised name, to be written under the entry's key.
   */
  lemma ClassifyCases(projectID: string, env: string)
    requires HasSeparator(env)
    ensures Classify(projectID, env).Keep? <==> !HasPrefix(Value(env), Tag)
    ensures Classify(projectID, env).Reject? <==>
              HasPrefix(Value(env), Tag) && !IsLong(TrimPrefix(Value(env), Tag)) && projectID == ""
    ensures Classify(projectID, env).Reject? ==>
              Classify(projectID, env).error == UnknownProject(TrimPrefix(Value(env), Tag))
    ensures Classify(projectID, env).Access? ==>
              Classify(projectID, env).key == Key(env) &&
              Normalize(TrimPrefix(Value(env), Tag), projectID) == Ok(Classify(projectID, env).name) &&
              Contains(Classify(projectID, env).name, VersionsMarker)
  {
  }

  /**
   * An entry `key=gcp:secretmanager:{name}` with no other `=` is decided by
   * the normalisation of `name` alone.
   */
  lemma ClassifyReference(projectID: string, key: string, name: string)
    requires '=' !in key && '=' !in name
    ensures HasSeparator(key + "=" + (Tag + name))
    ensures Key(key + "=" + (Tag + name)) == key
    ensures Classify(projectID, key + "=" + (Tag + name)) ==
            match Normalize(name, projectID)
            case Err(e) => Reject(e)
            case Ok(n) => Access(key, n)
  {
    var env := key + "=" + (Tag + name);
    assert Key(env) == key && Value(env) == Tag + name by {
      assert '=' !in Tag + name;
      KeyAndValue(key, Tag + name, "");
      assert env + "" == env;
    }
    assert HasPrefix(Tag + name, Tag);
  }

  /**
   * The entry `key=gcp:secretmanager:name` fetches exactly the normalised
   * name and becomes `key=payload` or the store's failure; a name that
   * cannot be normalised is not fetched and yields its error.
   */
  lemma ReferenceEntry(sp: SecretsProvider, key: string, name: string)
    requires '=' !in key && '=' !in name
    ensures HasSeparator(key + "=" + (Tag + name))
    ensures match Normalize(name, sp.projectID)
            case Err(e) =>
              ResolveEntry(sp, key + "=" + (Tag + name)) == Err(e) &&
              Requested(sp.projectID, key + "=" + (Tag + name)) == []
            case Ok(n) =>
              Requested(sp.projectID, key + "=" + (Tag + name)) == [n] &&
              ResolveEntry(sp, key + "=" + (Tag + name)) == match sp.sm.answer(n)
                case Payload(d) => Ok(key + "=" + d)
                case FetchError(c) => Err(FetchFailed(c))
  {
    ClassifyReference(sp.projectID, key, name);
  }

  /** The names an entry makes the pass fetch: none or one. */
  function Requested(projectID: string, env: string): (names: seq<string>)
    requires HasSeparator(env)
    ensures |names| <= 1
    ensures forall n :: n in names ==> Contains(n, VersionsMarker)
    ensures !HasPrefix(Value(env), Tag) ==> names == []
  {
    match Classify(projectID, env)
    case Access(_, name) => [name]
    case _ => []
  }

  /** The entry the pass emits for `env`, or the error that stops it. */
  function ResolveEntry(sp: SecretsProvider, env: string): (r: Result<string, Error>)
    requires HasSeparator(env)
    ensures !HasPrefix(Value(env), Tag) ==> r == Ok(env)
  {
    match Classify(sp.projectID, env)
    case Keep => Ok(env)
    case Reject(e) => Err(e)
    case Access(key, name) =>
      match sp.sm.answer(name)
      case Payload(data) => Ok(key + "=" + data)
      case FetchError(cause) => Err(FetchFailed(cause))
  }

  /**
   * A tagged entry fetches exactly its normalised name and yields `key=payload`
   * or the store's failure; a name that cannot be normalised is not fetched
   * and yields its error.
   */
  lemma TaggedEntry(sp: SecretsProvider, env: string)
    requires HasSeparator(env) && HasPrefix(Value(env), Tag)
    ensures match Normalize(TrimPrefix(Value(env), Tag), sp.projectID)
            case Err(e) => ResolveEntry(sp, env) == Err(e) && Requested(sp.projectID, env) == []
            case Ok(n) =>
              Requested(sp.projectID, env) == [n] &&
              ResolveEntry(sp, env) == match sp.sm.answer(n)
                case Payload(d) => Ok(Key(env) + "=" + d)
                case FetchError(c) => Err(FetchFailed(c))
  {
  }

  /**
   * A resolved reference is `key=payload`, with the key of the input and the
   * payload the store gave for the normalised name; its key reads back unchanged.
   */
  lemma SubstitutedEntry(sp: SecretsProvider, env: string)
    requires HasSeparator(env) && HasPrefix(Value(env), Tag)
    requires ResolveEntry(sp, env).Ok?
    ensures Classify(sp.projectID, env).Access?
    ensures var name := Normalize(TrimPrefix(Value(env), Tag), sp.projectID).value;
            sp.sm.answer(name).Payload? &&
            ResolveEntry(sp, env).value == Key(env) + "=" + sp.sm.answer(name).data
    ensures var out := ResolveEntry(sp, env).value;
            HasSeparator(out) && Key(out) == Key(env)
  {
    var key := Key(env);
    var out := ResolveEntry(sp, env).value;
    var data := out[|key| + 1..];
    assert out == key + ("=" + data);
    SplitFieldsLackSeparator(env, '=');
    IndexOfAfter(key, "=" + data, '=');
  }

  /**
   * A short reference with no project fails with the name it carried and is
   * never fetched.
   */
  lemma ShortNameWithoutProject(sp: SecretsProvider, env: string)
    requires HasSeparator(env) && HasPrefix(Value(env), Tag)
    requires !IsLong(TrimPrefix(Value(env), Tag)) && sp.projectID == ""
    ensures ResolveEntry(sp, env) == Err(UnknownProject(TrimPrefix(Value(env), Tag)))
    ensures Requested(sp.projectID, env) == []
  {
  }

  /** The provider's project never changes what a long reference resolves to. */
  lemma LongReferenceIgnoresProject(sm: SecretManagerClient, p1: string, p2: string, env: string)
    requires HasSeparator(env) && HasPrefix(Value(env), Tag)
    requires IsLong(TrimPrefix(Value(env), Tag))
    ensures ResolveEntry(SecretsProvider(sm, p1), env) == ResolveEntry(SecretsProvider(sm, p2), env)
    ensures Requested(p1, env) == Requested(p2, env)
  {
    LongNameIgnoresProject(TrimPrefix(Value(env), Tag), p1, p2);
  }

  // ---------------------------------------------------------------------
  // The pass
  // ---------------------------------------------------------------------

  predicate AllHaveSeparator(vars: seq<string>) {
    forall i :: 0 <= i < |vars| ==> HasSeparator(vars[i])
  }

  /** What one entry does to the pass: whether it resolves, and the names it fetches. */
  datatype Outcome = Outcome(resolves: bool, fetched: seq<string>)

  /** The outcome of one entry; an entry without `=` never reaches the pass. */
  ghost function OutcomeOf(sp: SecretsProvider, env: string): Outcome {
    if HasSeparator(env) then Outcome(ResolveEntry(sp, env).Ok?, Requested(sp.projectID, env))
    else Outcome(false, [])
  }

  ghost function OutcomeFn(sp: SecretsProvider): string -> Outcome {
    env => OutcomeOf(sp, env)
  }

  /** `f` applied to every element of `s`, in order. */
  ghost function MapSeq<A, B>(f: A -> B, s: seq<A>): (r: seq<B>)
    ensures |r| == |s|
    ensures forall i :: 0 <= i < |s| ==> r[i] == f(s[i])
  {
    seq(|s|, i requires 0 <= i < |s| => f(s[i]))
  }

  lemma MapSeqAppend<A, B>(f: A -> B, p: seq<A>, q: seq<A>)
    ensures MapSeq(f, p + q) == MapSeq(f, p) + MapSeq(f, q)
  {
    var whole, parts := MapSeq(f, p + q), MapSeq(f, p) + MapSeq(f, q);
    forall i | 0 <= i < |whole| ensures whole[i] == parts[i] {
      if i < |p| {
        assert (p + q)[i] == p[i];
      } else {
        assert (p + q)[i] == q[i - |p|];
      }
    }
  }

  ghost function Outcomes(sp: SecretsProvider, vars: seq<string>): (outs: seq<Outcome>)
    requires AllHaveSeparator(vars)
    ensures |outs| == |vars|
  {
    MapSeq(OutcomeFn(sp), vars)
  }

  /**
   * The names fetched by a pass over entries with these outcomes: each
   * entry's names, in order, up to and including the first that fails.
   */
  ghost function Log(outs: seq<Outcome>): seq<string> {
    if outs == [] then []
    else outs[0].fetched + (if outs[0].resolves then Log(outs[1..]) else [])
  }

  ghost predicate AllResolved(outs: seq<Outcome>) {
    forall i :: 0 <= i < |outs| ==> outs[i].resolves
  }

  lemma {:induction false} LogAppend(a: seq<Outcome>, b: seq<Outcome>)
    ensures Log(a + b) == Log(a) + (if AllResolved(a) then Log(b) else [])
    decreases |a|
  {
    if a == [] {
      assert a + b == b;
    } else {
      assert (a + b)[0] == a[0];
      assert (a + b)[1..] == a[1..] + b;
      LogAppend(a[1..], b);
      assert AllResolved(a) <==> a[0].resolves && AllResolved(a[1..]) by {
        assert forall i :: 0 < i < |a| ==> a[i] == a[1..][i - 1];
      }
    }
  }

  /** Entries after one that fails add nothing to the log. */
  lemma LogStopsAt(outs: seq<Outcome>, k: nat)
    requires k < |outs| && !outs[k].resolves
    ensures Log(outs) == Log(outs[..k + 1])
  {
    var upto := outs[..k + 1];
    assert outs == upto + outs[k + 1..];
    LogAppend(upto, outs[k + 1..]);
    assert upto[k] == outs[k];
  }

  /** While every earlier entry resolves, entry i adds its own names to the log. */
  lemma LogExtend(outs: seq<Outcome>, i: nat)
    requires i < |outs|
    requires forall k :: 0 <= k < i ==> outs[k].resolves
    ensures Log(outs[..i + 1]) == Log(outs[..i]) + outs[i].fetched
  {
    var before := outs[..i];
    assert outs[..i + 1] == before + [outs[i]];
    LogAppend(before, [outs[i]]);
    assert [outs[i]][1..] == [];
  }

  lemma MapSeqTake<A, B>(f: A -> B, s: seq<A>, n: nat)
    requires n <= |s|
    ensures MapSeq(f, s[..n]) == MapSeq(f, s)[..n]
  {
  }

  lemma {:induction false} LogBound(outs: seq<Outcome>)
    requires forall i :: 0 <= i < |outs| ==> |outs[i].fetched| <= 1
    ensures |Log(outs)| <= |outs|
    ensures forall n :: n in Log(outs) ==> exists i :: 0 <= i < |outs| && n in outs[i].fetched
    decreases |outs|
  {
    if outs != [] {
      LogBound(outs[1..]);
      assert forall i :: 0 <= i < |outs[1..]| ==> outs[1..][i] == outs[i + 1];
    }
  }

  /** The names a pass over `vars` fetches, in order. */
  ghost function FetchLog(sp: SecretsProvider, vars: seq<string>): seq<string>
    requires AllHaveSeparator(vars)
  {
    Log(Outcomes(sp, vars))
  }

  /** Every entry of `vars` resolves. */
  ghost predicate AllResolve(sp: SecretsProvider, vars: seq<string>)
    requires AllHaveSeparator(vars)
  {
    forall i :: 0 <= i < |vars| ==> ResolveEntry(sp, vars[i]).Ok?
  }

  lemma OutcomesAppend(sp: SecretsProvider, p: seq<string>, q: seq<string>)
    requires AllHaveSeparator(p) && AllHaveSeparator(q)
    ensures AllHaveSeparator(p + q)
    ensures Outcomes(sp, p + q) == Outcomes(sp, p) + Outcomes(sp, q)
  {
    assert AllHaveSeparator(p + q) by {
      assert forall i :: 0 <= i < |p| ==> (p + q)[i] == p[i];
      assert forall i :: |p| <= i < |p + q| ==> (p + q)[i] == q[i - |p|];
    }
    MapSeqAppend(OutcomeFn(sp), p, q);
  }

  /** The fetches of a concatenation: the second part is reached only if the whole first part resolves. */
  lemma FetchLogAppend(sp: SecretsProvider, p: seq<string>, q: seq<string>)
    requires AllHaveSeparator(p) && AllHaveSeparator(q)
    ensures AllHaveSeparator(p + q)
    ensures FetchLog(sp, p + q) == FetchLog(sp, p) + (if AllResolve(sp, p) then FetchLog(sp, q) else [])
  {
    OutcomesAppend(sp, p, q);
    var outs := Outcomes(sp, p);
    LogAppend(outs, Outcomes(sp, q));
    assert forall i :: 0 <= i < |p| ==> outs[i].resolves == ResolveEntry(sp, p[i]).Ok?;
    assert AllResolved(outs) <==> AllResolve(sp, p);
  }

  /** While every earlier entry resolves, entry i adds its own requests to the log. */
  lemma FetchLogExtend(sp: SecretsProvider, vars: seq<string>, i: nat)
    requires AllHaveSeparator(vars) && i < |vars|
    requires forall k :: 0 <= k < i ==> ResolveEntry(sp, vars[k]).Ok?
    ensures AllHaveSeparator(vars[..i + 1]) && AllHaveSeparator(vars[..i])
    ensures FetchLog(sp, vars[..i + 1]) == FetchLog(sp, vars[..i]) + Requested(sp.projectID, vars[i])
  {
    var outs := Outcomes(sp, vars);
    OutcomesResolve(sp, vars, i);
    assert outs[i].fetched == Requested(sp.projectID, vars[i]);
    LogExtend(outs, i);
    OutcomesPrefix(sp, vars, i);
    OutcomesPrefix(sp, vars, i + 1);
  }

  /** Entries that resolve have outcomes that resolve. */
  lemma OutcomesResolve(sp: SecretsProvider, vars: seq<string>, i: nat)
    requires AllHaveSeparator(vars) && i <= |vars|
    requires forall k :: 0 <= k < i ==> ResolveEntry(sp, vars[k]).Ok?
    ensures forall k :: 0 <= k < i ==> Outcomes(sp, vars)[k].resolves
  {
  }

  /** The outcomes of a prefix are the prefix of the outcomes. */
  lemma OutcomesPrefix(sp: SecretsProvider, vars: seq<string>, n: nat)
    requires AllHaveSeparator(vars) && n <= |vars|
    ensures AllHaveSeparator(vars[..n])
    ensures Outcomes(sp, vars[..n]) == Outcomes(sp, vars)[..n]
  {
    assert AllHaveSeparator(vars[..n]);
    MapSeqTake(OutcomeFn(sp), vars, n);
  }

  /** The log of all of `vars`, taken as a prefix. */
  lemma FetchLogWhole(sp: SecretsProvider, vars: seq<string>)
    requires AllHaveSeparator(vars)
    ensures AllHaveSeparator(vars[..|vars|])
    ensures FetchLog(sp, vars[..|vars|]) == FetchLog(sp, vars)
  {
    assert vars[..|vars|] == vars;
  }

  /** Nothing is fetched after the first failing entry, whatever follows it. */
  lemma NoFetchAfterFailure(sp: SecretsProvider, vars: seq<string>, k: nat)
    requires AllHaveSeparator(vars) && k < |vars|
    requires ResolveEntry(sp, vars[k]).Err?
    ensures FetchLog(sp, vars) == FetchLog(sp, vars[..k + 1])
  {
    var outs := Outcomes(sp, vars);
    assert !outs[k].resolves;
    LogStopsAt(outs, k);
    assert AllHaveSeparator(vars[..k + 1]);
    MapSeqTake(OutcomeFn(sp), vars, k + 1);
  }

  /** Entry k is the first of `vars` that fails, and it fails with `e`. */
  ghost predicate FirstFailureAt(sp: SecretsProvider, vars: seq<string>, k: int, e: Error)
    requires AllHaveSeparator(vars)
  {
    0 <= k < |vars| && ResolveEntry(sp, vars[k]) == Err(e) &&
    forall i :: 0 <= i < k ==> ResolveEntry(sp, vars[i]).Ok?
  }

  /** A list has at most one first failure. */
  lemma FirstFailureUnique(sp: SecretsProvider, vars: seq<string>, k1: int, e1: Error, k2: int, e2: Error)
    requires AllHaveSeparator(vars)
    requires FirstFailureAt(sp, vars, k1, e1) && FirstFailureAt(sp, vars, k2, e2)
    ensures k1 == k2 && e1 == e2
  {
  }

  /** At most one fetch per entry, and every fetched name carries a version. */
  lemma FetchLogBound(sp: SecretsProvider, vars: seq<string>)
    requires AllHaveSeparator(vars)
    ensures |FetchLog(sp, vars)| <= |vars|
    ensures forall n :: n in FetchLog(sp, vars) ==> Contains(n, VersionsMarker)
  {
    var outs := Outcomes(sp, vars);
    assert forall i :: 0 <= i < |outs| ==> outs[i].fetched == Requested(sp.projectID, vars[i]);
    LogBound(outs);
  }

  /** A pass in which every entry resolves keeps every key and every `=`. */
  lemma ResolvedKeysUnchanged(sp: SecretsProvider, vars: seq<string>)
    requires AllHaveSeparator(vars)
    requires forall i :: 0 <= i < |vars| ==> ResolveEntry(sp, vars[i]).Ok?
    ensures forall i :: 0 <= i < |vars| ==>
              HasSeparator(ResolveEntry(sp, vars[i]).value) && Key(ResolveEntry(sp, vars[i]).value) == Key(vars[i])
  {
    forall i | 0 <= i < |vars|
      ensures HasSeparator(ResolveEntry(sp, vars[i]).value) && Key(ResolveEntry(sp, vars[i]).value) == Key(vars[i])
    {
      if HasPrefix(Value(vars[i]), Tag) {
        SubstitutedEntry(sp, vars[i]);
      }
    }
  }

  /** The entries of `envs` resolve the first entries of `vars`, one for one. */
  ghost predicate ResolvedPrefix(sp: SecretsProvider, vars: seq<string>, envs: seq<string>)
    requires AllHaveSeparator(vars)
  {
    |envs| <= |vars| && forall k :: 0 <= k < |envs| ==> ResolveEntry(sp, vars[k]) == Ok(envs[k])
  }

  /** One more resolved entry extends the resolved prefix. */
  lemma ResolvedExtend(sp: SecretsProvider, vars: seq<string>, envs: seq<string>, out: string)
    requires AllHaveSeparator(vars) && ResolvedPrefix(sp, vars, envs) && |envs| < |vars|
    requires ResolveEntry(sp, vars[|envs|]) == Ok(out)
    ensures ResolvedPrefix(sp, vars, envs + [out])
  {
    var next := envs + [out];
    forall k | 0 <= k < |next| ensures ResolveEntry(sp, vars[k]) == Ok(next[k]) {
      if k < |envs| {
        assert next[k] == envs[k];
      }
    }
  }

  /**
   * One entry of the pass, once the entries before it have resolved: it adds
   * its own requests to the log; if it resolves, the resolved prefix grows;
   * if it fails, it is the first failure and nothing after it is fetched.
   */
  lemma PassStep(sp: SecretsProvider, vars: seq<string>, envs: seq<string>, r: Result<string, Error>)
    requires AllHaveSeparator(vars) && ResolvedPrefix(sp, vars, envs) && |envs| < |vars|
    requires r == ResolveEntry(sp, vars[|envs|])
    ensures AllHaveSeparator(vars[..|envs| + 1]) && AllHaveSeparator(vars[..|envs|])
    ensures FetchLog(sp, vars[..|envs| + 1]) == FetchLog(sp, vars[..|envs|]) + Requested(sp.projectID, vars[|envs|])
    ensures r.Ok? ==> ResolvedPrefix(sp, vars, envs + [r.value])
    ensures r.Err? ==> FetchLog(sp, vars) == FetchLog(sp, vars[..|envs| + 1])
    ensures r.Err? ==> FirstFailureAt(sp, vars, |envs|, r.error)
  {
    var i := |envs|;
    FetchLogExtend(sp, vars, i);
    if r.Ok? {
      ResolvedExtend(sp, vars, envs, r.value);
    } else {
      NoFetchAfterFailure(sp, vars, i);
    }
  }

  /**
   * The body of the loop in ResolveSecrets, for one entry: the entry to
   * append, or the error that ends the pass. The names it sends to the store
   * are exactly those `Requested` gives.
   */
  method ResolveOne(sp: SecretsProvider, env: string) returns (out: Result<string, Error>)
    requires HasSeparator(env)
    modifies sp.sm
    ensures out == ResolveEntry(sp, env)
    ensures sp.sm.log == old(sp.sm.log) + Requested(sp.projectID, env)
  {
    var kv := Split(env, '=');
    var key, value := kv[0], kv[1];
    if !HasPrefix(value, Tag) {
      assert sp.sm.log == sp.sm.log + [];
      return Ok(env);
    }
    var name := TrimPrefix(value, Tag);
    ghost var reference := name;
    var isLong := IsLong(name);
    if !isLong {
      if sp.projectID == "" {
        assert sp.sm.log == sp.sm.log + [];
        return Err(UnknownProject(name));
      }
      name := "projects/" + sp.projectID + "/secrets/" + name;
    }
    assert Qualify(reference, sp.projectID) == Ok(name);
    if !Contains(name, VersionsMarker) {
      name := name + LatestVersion;
    }
    assert Classify(sp.projectID, env) == Access(key, name);
    var secret := sp.sm.AccessSecretVersion(name);
    if secret.FetchError? {
      return Err(FetchFailed(secret.cause));
    }
    out := Ok(key + "=" + secret.data);
  }

  /** One turn of the loop in ResolveSecrets: entry |envs| of `vars`, once those before it resolved. */
  method ResolveNext(sp: SecretsProvider, vars: seq<string>, envs: seq<string>, ghost start: seq<string>)
    returns (r: Result<string, Error>)
    requires AllHaveSeparator(vars) && ResolvedPrefix(sp, vars, envs) && |envs| < |vars|
    requires AllHaveSeparator(vars[..|envs|]) && sp.sm.log == start + FetchLog(sp, vars[..|envs|])
    modifies sp.sm
    ensures AllHaveSeparator(vars[..|envs| + 1])
    ensures r.Ok? ==> ResolvedPrefix(sp, vars, envs + [r.value])
    ensures r.Ok? ==> sp.sm.log == start + FetchLog(sp, vars[..|envs| + 1])
    ensures r.Err? ==> FirstFailureAt(sp, vars, |envs|, r.error)
    ensures r.Err? ==> sp.sm.log == start + FetchLog(sp, vars)
  {
    r := ResolveOne(sp, vars[|envs|]);
    PassStep(sp, vars, envs, r);
  }

  /**
   * ResolveSecrets: on success, entry i of the result is entry i of `vars`
   * resolved; on failure, `vars` itself with the error of the first failing
   * entry. The client's log grows by exactly the names of `FetchLog`.
   */
  method ResolveSecrets(sp: SecretsProvider, vars: seq<string>)
    returns (envs: seq<string>, err: Option<Error>)
    requires AllHaveSeparator(vars)
    modifies sp.sm
    ensures err.None? ==> |envs| == |vars|
    ensures err.None? ==> forall i :: 0 <= i < |vars| ==> ResolveEntry(sp, vars[i]) == Ok(envs[i])
    ensures err.Some? ==> envs == vars
    ensures err.Some? ==> exists k :: FirstFailureAt(sp, vars, k, err.value)
    ensures sp.sm.log == old(sp.sm.log) + FetchLog(sp, vars)
  {
    envs := [];
    for i := 0 to |vars|
      invariant |envs| == i && ResolvedPrefix(sp, vars, envs)
      invariant sp.sm.log == old(sp.sm.log) + FetchLog(sp, vars[..i])
    {
      var r := ResolveNext(sp, vars, envs, old(sp.sm.log));
      if r.Err? {
        return vars, Some(r.error);
      }
      envs := envs + [r.value];
    }
    FetchLogWhole(sp, vars);
    err := None;
  }

  // ---------------------------------------------------------------------
  // Construction
  // ---------------------------------------------------------------------

  /**
   * NewGoogleSecretsProvider: an explicit project wins and discovery is not
   * asked; otherwise the discovered project is used, and a failed discovery
   * leaves it empty without failing. Only the client decides failure.
   * `discovered` is what metadata.ProjectID() would give, `client` what
   * secretmanager.NewClient gives. That discovery is not consulted under an
   * explicit project is stated by the result not depending on `discovered`
   * in that case; the ghost `discoveryAsked` only records which branch ran.
   */
  method NewGoogleSecretsProvider(projectID: string, discovered: Result<string, string>,
                                  client: Result<SecretManagerClient, string>)
    returns (r: Result<SecretsProvider, Error>, ghost discoveryAsked: bool)
    ensures discoveryAsked <==> projectID == ""
    ensures r.Err? <==> client.Err?
    ensures client.Err? ==> r.error == InitFailed(client.error)
    ensures r.Ok? ==> r.value.sm == client.value
    ensures r.Ok? && projectID != "" ==> r.value.projectID == projectID
    ensures r.Ok? && projectID == "" ==> r.value.projectID == (if discovered.Ok? then discovered.value else "")
  {
    var spProjectID := "";
    discoveryAsked := false;
    if projectID != "" {
      spProjectID := projectID;
    } else {
      discoveryAsked := true;
      if discovered.Ok? {
        spProjectID := discovered.value;
      }
    }
    if client.Err? {
      return Err(InitFailed(client.error)), discoveryAsked;
    }
    r := Ok(SecretsProvider(client.value, spProjectID));
  }
}

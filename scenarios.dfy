/*
 * Lemmas about references of the documented shapes: the short
 * form under a project, the fully qualified versioned form, and what the
 * `=`-split and the version test do with unusual entries.
 */
module GoogleSecretsScenarios {
  import opened GoStrings
  import opened GoogleSecrets

  /**
   * `KEY=gcp:secretmanager:{SECRET}` under project P fetches
   * `projects/P/secrets/{SECRET}/versions/latest` and becomes `KEY=<payload>`.
   */
  lemma ShortReferenceResolved(sm: SecretManagerClient, key: string, secret: string, p: string, payload: string)
    requires '=' !in key && '=' !in secret
    requires !IsLong(secret) && p != ""
    requires !Contains("projects/" + p + "/secrets/" + secret, VersionsMarker)
    requires sm.answer("projects/" + p + "/secrets/" + secret + LatestVersion) == Payload(payload)
    ensures ResolveEntry(SecretsProvider(sm, p), key + "=" + (Tag + secret)) == Ok(key + "=" + payload)
    ensures Requested(p, key + "=" + (Tag + secret)) == ["projects/" + p + "/secrets/" + secret + LatestVersion]
  {
    ReferenceEntry(SecretsProvider(sm, p), key, secret);
    ShortNameDefaultVersion(secret, p);
  }

  /** The example of the short form: DB_PASS=gcp:secretmanager:db-pass under p1. */
  lemma DbPassExample(sm: SecretManagerClient)
    requires sm.answer("projects/" + "p1" + "/secrets/" + "db-pass" + LatestVersion) == Payload("hunter2")
    ensures ResolveEntry(SecretsProvider(sm, "p1"), "DB_PASS" + "=" + (Tag + "db-pass")) == Ok("DB_PASS" + "=" + "hunter2")
  {
    var q := "projects/" + "p1" + "/secrets/" + "db-pass";
    assert 'v' !in q;
    NotContainsMissingChar(q, VersionsMarker, 'v');
    ShortReferenceResolved(sm, "DB_PASS", "db-pass", "p1", "hunter2");
  }

  /**
   * A fully qualified, versioned name `projects/P/secrets/S/versions/V` is
   * fetched as written, whatever the provider's project.
   */
  lemma QualifiedVersionedName(p: string, s: string, version: string, projectID: string)
    requires p != [] && '/' !in p
    requires s != [] && s[0] != '/' && s[0] != '+'
    ensures var name := "projects/" + p + "/secrets/" + s + VersionsMarker + version;
            Normalize(name, projectID) == Ok(name)
  {
    var q := "projects/" + p + "/secrets/" + s;
    var name := q + VersionsMarker + version;
    QualifiedIsLong(p, s + VersionsMarker + version);
    assert "projects/" + p + "/secrets/" + (s + VersionsMarker + version) == name;
    assert Contains(VersionsMarker, VersionsMarker);
    ContainsInContext(q, VersionsMarker, version, VersionsMarker);
  }

  /** Only the second `=`-field is the value: `A=B=C` has key `A` and value `B`. */
  lemma ValueIsSecondField()
    ensures Key("A=B=C") == "A" && Value("A=B=C") == "B"
  {
    KeyAndValue("A", "B", "=C");
    assert "A=B=C" == "A" + "=" + "B" + "=C";
  }

  /**
   * Text after a second `=` in a reference is ignored: the entry resolves
   * exactly as if it ended before that `=`, so that text is lost. (An entry
   * without the tag is copied whole, later `=` included.)
   */
  lemma TextAfterSecondSeparatorIgnored(sp: SecretsProvider, key: string, ref: string, rest: string)
    requires '=' !in key && '=' !in ref && HasPrefix(ref, Tag)
    ensures ResolveEntry(sp, key + "=" + ref + ("=" + rest)) == ResolveEntry(sp, key + "=" + ref)
    ensures Requested(sp.projectID, key + "=" + ref + ("=" + rest)) == Requested(sp.projectID, key + "=" + ref)
  {
    KeyAndValue(key, ref, "=" + rest);
    KeyAndValue(key, ref, "");
    assert key + "=" + ref + "" == key + "=" + ref;
  }

  /**
   * The version test looks at the whole name, project included: under a
   * project called `versions`, a short name gets no default version.
   */
  lemma ProjectNamedVersions(secret: string)
    requires !IsLong(secret)
    ensures Normalize(secret, "versions") == Ok("projects/" + "versions" + "/secrets/" + secret)
  {
    var name := "projects/" + "versions" + "/secrets/" + secret;
    assert "projects/" == "projects" + "/";
    assert "/secrets/" == "/" + "secrets/";
    assert "/" + "versions" + "/" == VersionsMarker;
    assert name == "projects" + VersionsMarker + ("secrets/" + secret);
    assert Contains(VersionsMarker, VersionsMarker);
    ContainsInContext("projects", VersionsMarker, "secrets/" + secret, VersionsMarker);
  }
}

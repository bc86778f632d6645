/** `src/manifest.rs`: the validated manifest, and `src/registry.rs`: what the registry makes of it. */
module Manifests {
  import opened Common

  const SUPPORTED_SCHEMA_VERSIONS: seq<nat> := [1]
  const PROJECT_NAME_MAX_LEN: nat := 64
  const DESCRIPTION_MAX_LEN: nat := 256
  const SECRET_NAME_MAX_LEN: nat := 128
  const CACHE_TTL_MAX: nat := 86_400
  const CACHE_MAX_ENTRIES_MAX: nat := 1_024

  datatype RawCache = RawCache(ttlSeconds: Option<nat>, maxEntries: Option<nat>)

  /** What TOML parsing yields; nothing in it has been validated yet. */
  datatype RawManifest = RawManifest(
    schemaVersion: nat,
    name: string,
    description: Option<string>,
    secrets: seq<string>,
    cache: Option<RawCache>)

  datatype Manifest = Manifest(
    schemaVersion: nat,
    name: string,
    description: Option<string>,
    secrets: seq<string>,
    ttlSeconds: Option<nat>,
    maxEntries: Option<nat>)

  datatype ManifestError =
    | NotFound
    | Io
    | Parse
    | UnsupportedSchemaVersion(version: nat)
    | InvalidProjectName(name: string)
    | NameDirMismatch(name: string, dir: string)
    | DescriptionTooLong(len: nat)
    | InvalidSecretName(name: string)
    | DuplicateSecret(name: string)
    | CacheTtlOutOfRange(value: nat)
    | CacheMaxEntriesOutOfRange(value: nat)

  predicate IsLower(c: char) { 'a' <= c <= 'z' }
  predicate IsUpper(c: char) { 'A' <= c <= 'Z' }
  predicate IsDigit(c: char) { '0' <= c <= '9' }

  /** `^[a-z0-9][a-z0-9_-]{0,63}$`. The source counts bytes; a name with any
      multi-byte character is refused by the character classes anyway. */
  predicate IsValidProjectName(s: string) {
    && 0 < |s| <= PROJECT_NAME_MAX_LEN
    && (IsLower(s[0]) || IsDigit(s[0]))
    && forall i :: 1 <= i < |s| ==> IsLower(s[i]) || IsDigit(s[i]) || s[i] == '_' || s[i] == '-'
  }

  /** `^[A-Za-z0-9_]{1,128}$` */
  predicate IsValidSecretName(s: string) {
    && 0 < |s| <= SECRET_NAME_MAX_LEN
    && forall i :: 0 <= i < |s| ==> IsLower(s[i]) || IsUpper(s[i]) || IsDigit(s[i]) || s[i] == '_'
  }

  predicate InRange(v: Option<nat>, max: nat) {
    v.Some? ==> 1 <= v.value <= max
  }

  /** `is_valid_secret_name`, byte by byte: ASCII letters, digits and underscores, 1 to 128 of them. */
  method ScanSecretName(s: string) returns (valid: bool)
    ensures valid <==>
            && 1 <= |s| <= 128
            && forall i :: 0 <= i < |s| ==>
                 'A' <= s[i] <= 'Z' || 'a' <= s[i] <= 'z' || '0' <= s[i] <= '9' || s[i] == '_'
    ensures valid <==> IsValidSecretName(s)
  {
    if s == "" || |s| > SECRET_NAME_MAX_LEN {
      return false;
    }
    for i := 0 to |s|
      invariant forall k :: 0 <= k < i ==>
                  'A' <= s[k] <= 'Z' || 'a' <= s[k] <= 'z' || '0' <= s[k] <= '9' || s[k] == '_'
    {
      if !(IsLower(s[i]) || IsUpper(s[i]) || IsDigit(s[i]) || s[i] == '_') {
        return false;
      }
    }
    return true;
  }

  /** `is_valid_project_name`: 1 to 64 lower-case letters, digits, underscores and hyphens, the first one a letter or
      digit. */
  method ScanProjectName(s: string) returns (valid: bool)
    ensures valid <==>
            && 1 <= |s| <= 64
            && ('a' <= s[0] <= 'z' || '0' <= s[0] <= '9')
            && forall i :: 0 <= i < |s| ==> 'a' <= s[i] <= 'z' || '0' <= s[i] <= '9' || s[i] == '_' || s[i] == '-'
    ensures valid <==> IsValidProjectName(s)
  {
    if s == "" || |s| > PROJECT_NAME_MAX_LEN {
      return false;
    }
    if !IsLower(s[0]) && !IsDigit(s[0]) {
      return false;
    }
    for i := 1 to |s|
      invariant forall k :: 0 <= k < i ==>
                  'a' <= s[k] <= 'z' || '0' <= s[k] <= '9' || s[k] == '_' || s[k] == '-'
    {
      if !(IsLower(s[i]) || IsDigit(s[i]) || s[i] == '_' || s[i] == '-') {
        return false;
      }
    }
    return true;
  }

  // ---- the documented rules, in the order in which they are reported ----------

  ghost predicate ProjectRules(raw: RawManifest, dir: Option<string>) {
    && raw.schemaVersion == 1 && IsValidProjectName(raw.name)
    && (dir.Some? ==> raw.name == dir.value)
    && (raw.description.Some? ==> |raw.description.value| <= 256)
  }

  ghost predicate SecretRule(secrets: seq<string>, i: nat)
    requires i < |secrets|
  {
    IsValidSecretName(secrets[i]) && forall k :: 0 <= k < i ==> secrets[k] != secrets[i]
  }

  ghost predicate SecretRules(secrets: seq<string>) {
    forall i: nat :: i < |secrets| ==> SecretRule(secrets, i)
  }

  /** What a raw cache section says, if there is one. */
  function RawTtl(raw: RawManifest): Option<nat> { if raw.cache.Some? then raw.cache.value.ttlSeconds else None }

  function RawMax(raw: RawManifest): Option<nat> { if raw.cache.Some? then raw.cache.value.maxEntries else None }

  ghost predicate TtlRule(raw: RawManifest) { RawTtl(raw).Some? ==> 1 <= RawTtl(raw).value <= 86_400 }

  ghost predicate MaxRule(raw: RawManifest) { RawMax(raw).Some? ==> 1 <= RawMax(raw).value <= 1_024 }

  ghost predicate Acceptable(raw: RawManifest, dir: Option<string>) {
    ProjectRules(raw, dir) && SecretRules(raw.secrets) && TtlRule(raw) && MaxRule(raw)
  }

  /** The first secret that breaks its rule is the one at `i`. */
  ghost predicate FirstBadSecret(secrets: seq<string>, i: nat) {
    i < |secrets| && !SecretRule(secrets, i) && forall k: nat :: k < i ==> SecretRule(secrets, k)
  }

  /** The error is about the first broken rule, and carries what breaks it. */
  ghost predicate Reports(raw: RawManifest, dir: Option<string>, e: ManifestError) {
    match e
    case UnsupportedSchemaVersion(v) => v == raw.schemaVersion != 1
    case InvalidProjectName(n) => raw.schemaVersion == 1 && n == raw.name && !IsValidProjectName(n)
    case NameDirMismatch(n, d) =>
      raw.schemaVersion == 1 && IsValidProjectName(raw.name) && n == raw.name != d && dir == Some(d)
    case DescriptionTooLong(len) =>
      && raw.schemaVersion == 1 && IsValidProjectName(raw.name) && (dir.Some? ==> raw.name == dir.value)
      && raw.description.Some? && len == |raw.description.value| > 256
    case InvalidSecretName(n) =>
      && ProjectRules(raw, dir) && !IsValidSecretName(n)
      && exists i: nat :: FirstBadSecret(raw.secrets, i) && raw.secrets[i] == n
    case DuplicateSecret(n) =>
      && ProjectRules(raw, dir) && IsValidSecretName(n)
      && exists i: nat :: FirstBadSecret(raw.secrets, i) && raw.secrets[i] == n
    case CacheTtlOutOfRange(v) =>
      ProjectRules(raw, dir) && SecretRules(raw.secrets) && !TtlRule(raw) && RawTtl(raw) == Some(v)
    case CacheMaxEntriesOutOfRange(v) =>
      ProjectRules(raw, dir) && SecretRules(raw.secrets) && TtlRule(raw) && !MaxRule(raw) && RawMax(raw) == Some(v)
    case _ => false
  }

  /** The manifest says what the file says, field by field. */
  predicate Carries(m: Manifest, raw: RawManifest) {
    && m.schemaVersion == raw.schemaVersion && m.name == raw.name && m.description == raw.description
    && m.secrets == raw.secrets && m.ttlSeconds == RawTtl(raw) && m.maxEntries == RawMax(raw)
  }

  /** What every manifest in the daemon satisfies. */
  ghost predicate WellFormed(m: Manifest) {
    && m.schemaVersion in SUPPORTED_SCHEMA_VERSIONS
    && IsValidProjectName(m.name)
    && (forall i :: 0 <= i < |m.secrets| ==> IsValidSecretName(m.secrets[i]))
    && Distinct(m.secrets)
    && InRange(m.ttlSeconds, CACHE_TTL_MAX)
    && InRange(m.maxEntries, CACHE_MAX_ENTRIES_MAX)
  }

  function Accepted(raw: RawManifest): Manifest {
    Manifest(raw.schemaVersion, raw.name, raw.description, raw.secrets,
             if raw.cache.Some? then raw.cache.value.ttlSeconds else None,
             if raw.cache.Some? then raw.cache.value.maxEntries else None)
  }

  /** The first complaint of the allowlist loop, scanning from `i` with the names before `i` seen. */
  function SecretsVerdict(secrets: seq<string>, i: nat): (r: Option<ManifestError>)
    requires i <= |secrets|
    ensures r.Some? ==> r.value.InvalidSecretName? || r.value.DuplicateSecret?
    ensures r.Some? ==> r.value.name in secrets[i..]
    decreases |secrets| - i
  {
    if i == |secrets| then None
    else if !IsValidSecretName(secrets[i]) then Some(InvalidSecretName(secrets[i]))
    else if secrets[i] in secrets[..i] then Some(DuplicateSecret(secrets[i]))
    else SecretsVerdict(secrets, i + 1)
  }

  function CacheVerdict(cache: Option<RawCache>): Option<ManifestError> {
    if cache.None? then None
    else if !InRange(cache.value.ttlSeconds, CACHE_TTL_MAX) then
      Some(CacheTtlOutOfRange(cache.value.ttlSeconds.value))
    else if !InRange(cache.value.maxEntries, CACHE_MAX_ENTRIES_MAX) then
      Some(CacheMaxEntriesOutOfRange(cache.value.maxEntries.value))
    else None
  }

  /** The first rule a raw manifest breaks, in the order the daemon reports them. */
  function Verdict(raw: RawManifest, dir: Option<string>): Option<ManifestError> {
    if raw.schemaVersion !in SUPPORTED_SCHEMA_VERSIONS then Some(UnsupportedSchemaVersion(raw.schemaVersion))
    else if !IsValidProjectName(raw.name) then Some(InvalidProjectName(raw.name))
    else if dir.Some? && raw.name != dir.value then Some(NameDirMismatch(raw.name, dir.value))
    else if raw.description.Some? && |raw.description.value| > DESCRIPTION_MAX_LEN then
      Some(DescriptionTooLong(|raw.description.value|))
    else
      var secrets := SecretsVerdict(raw.secrets, 0);
      if secrets.Some? then secrets else CacheVerdict(raw.cache)
  }

  function Validated(raw: RawManifest, dir: Option<string>): Result<Manifest, ManifestError> {
    var v := Verdict(raw, dir);
    if v.Some? then Err(v.value) else Ok(Accepted(raw))
  }

  /** `Manifest::validate`: it succeeds exactly if all rules hold, and otherwise reports the first broken one. */
  method Validate(raw: RawManifest, dir: Option<string>) returns (r: Result<Manifest, ManifestError>)
    ensures r == Validated(raw, dir)
    ensures r.Ok? <==> Acceptable(raw, dir)
    ensures r.Ok? ==> Carries(r.value, raw) && WellFormed(r.value)
    ensures r.Err? ==> Reports(raw, dir, r.error)
  {
    VerdictMeaning(raw, dir);
    if raw.schemaVersion !in SUPPORTED_SCHEMA_VERSIONS {
      return Err(UnsupportedSchemaVersion(raw.schemaVersion));
    }
    var validName := ScanProjectName(raw.name);
    if !validName {
      return Err(InvalidProjectName(raw.name));
    }
    if dir.Some? && raw.name != dir.value {
      return Err(NameDirMismatch(raw.name, dir.value));
    }
    if raw.description.Some? && |raw.description.value| > DESCRIPTION_MAX_LEN {
      return Err(DescriptionTooLong(|raw.description.value|));
    }
    var seen: set<string> := {};
    for i := 0 to |raw.secrets|
      invariant seen == Elements(raw.secrets[..i])
      invariant SecretsVerdict(raw.secrets, 0) == SecretsVerdict(raw.secrets, i)
    {
      var name := raw.secrets[i];
      var valid := ScanSecretName(name);
      if !valid {
        return Err(InvalidSecretName(name));
      }
      if name in seen {
        return Err(DuplicateSecret(name));
      }
      seen := seen + {name};
      assert raw.secrets[..i + 1] == raw.secrets[..i] + [name];
    }
    match raw.cache
    case None => return Ok(Accepted(raw));
    case Some(c) =>
      if !InRange(c.ttlSeconds, CACHE_TTL_MAX) {
        return Err(CacheTtlOutOfRange(c.ttlSeconds.value));
      }
      if !InRange(c.maxEntries, CACHE_MAX_ENTRIES_MAX) {
        return Err(CacheMaxEntriesOutOfRange(c.maxEntries.value));
      }
      return Ok(Accepted(raw));
  }

  lemma {:induction false} SecretsVerdictMeaning(secrets: seq<string>, i: nat)
    requires i <= |secrets|
    requires forall k: nat :: k < i ==> SecretRule(secrets, k)
    ensures SecretsVerdict(secrets, i).None? <==> SecretRules(secrets)
    ensures SecretsVerdict(secrets, i).Some? ==>
            exists k: nat :: FirstBadSecret(secrets, k) && SecretsVerdict(secrets, i).value ==
                             if IsValidSecretName(secrets[k]) then DuplicateSecret(secrets[k])
                             else InvalidSecretName(secrets[k])
    decreases |secrets| - i
  {
    if i < |secrets| {
      assert secrets[i] in secrets[..i] <==> exists k :: 0 <= k < i && secrets[k] == secrets[i];
      if SecretRule(secrets, i) {
        SecretsVerdictMeaning(secrets, i + 1);
      } else {
        assert FirstBadSecret(secrets, i);
      }
    }
  }

  lemma RulesMeanDistinct(secrets: seq<string>)
    requires SecretRules(secrets)
    ensures Distinct(secrets)
  {
    forall i, j | 0 <= i < j < |secrets| ensures secrets[i] != secrets[j] {
      assert SecretRule(secrets, j);
    }
  }

  lemma AcceptedIsWellFormed(raw: RawManifest, dir: Option<string>)
    requires Acceptable(raw, dir)
    ensures WellFormed(Accepted(raw)) && Carries(Accepted(raw), raw)
  {
    RulesMeanDistinct(raw.secrets);
    forall i: nat | i < |raw.secrets| ensures IsValidSecretName(raw.secrets[i]) {
      assert SecretRule(raw.secrets, i);
    }
  }

  lemma ErrorIsReport(raw: RawManifest, dir: Option<string>)
    requires !Acceptable(raw, dir)
    ensures Verdict(raw, dir).Some? && Reports(raw, dir, Verdict(raw, dir).value)
  {
    SecretsVerdictMeaning(raw.secrets, 0);
    var complaint := SecretsVerdict(raw.secrets, 0);
    if complaint.Some? {
      var k: nat :| FirstBadSecret(raw.secrets, k) && complaint.value ==
                    if IsValidSecretName(raw.secrets[k]) then DuplicateSecret(raw.secrets[k])
                    else InvalidSecretName(raw.secrets[k]);
      assert !SecretRule(raw.secrets, k);
    }
  }

  /** Validation succeeds exactly on the manifests the documented rules admit, returns them well-formed and field by
      field as they were, and otherwise reports the first broken rule. */
  lemma VerdictMeaning(raw: RawManifest, dir: Option<string>)
    ensures Validated(raw, dir).Ok? <==> Acceptable(raw, dir)
    ensures Validated(raw, dir).Ok? ==> WellFormed(Validated(raw, dir).value) && Carries(Validated(raw, dir).value, raw)
    ensures Validated(raw, dir).Err? ==> Reports(raw, dir, Validated(raw, dir).error)
  {
    SecretsVerdictMeaning(raw.secrets, 0);
    if Acceptable(raw, dir) {
      AcceptedIsWellFormed(raw, dir);
    } else {
      ErrorIsReport(raw, dir);
    }
  }

  // ---- registry side -----------------------------------------------------

  /** What `Manifest::load` finds on disk under a project path. */
  datatype Disk = Missing | Unreadable | Unparsable | Readable(raw: RawManifest, dirName: Option<string>)

  datatype RegistryError =
    | ProjectExists
    | ProjectUnknown
    | ManifestNotFound(cause: ManifestError)
    | ManifestInvalid(cause: ManifestError)
    | BindSocket

  function Load(disk: Disk): Result<Manifest, ManifestError> {
    match disk
    case Missing => Err(NotFound)
    case Unreadable => Err(Io)
    case Unparsable => Err(Parse)
    case Readable(raw, dirName) => Validated(raw, dirName)
  }

  /** `load_manifest` followed by the name check that `register` and `reload` both make. */
  function LoadFor(disk: Disk, name: string): (r: Result<Manifest, RegistryError>) {
    match Load(disk)
    case Err(e) => if e.NotFound? then Err(ManifestNotFound(e)) else Err(ManifestInvalid(e))
    case Ok(m) => if m.name != name then Err(ManifestInvalid(NameDirMismatch(m.name, name))) else Ok(m)
  }

  /** There is an acceptable manifest on disk and it has the requested name. */
  ghost predicate Loads(disk: Disk, name: string) {
    disk.Readable? && disk.raw.name == name && Acceptable(disk.raw, disk.dirName)
  }

  /** What is wrong with the manifest on disk. */
  ghost predicate LoadError(disk: Disk, name: string, e: RegistryError) {
    match disk
    case Missing => e == ManifestNotFound(NotFound)
    case Unreadable => e == ManifestInvalid(Io)
    case Unparsable => e == ManifestInvalid(Parse)
    case Readable(raw, dirName) =>
      && e.ManifestInvalid?
      && if Acceptable(raw, dirName) then e.cause == NameDirMismatch(raw.name, name) else Reports(raw, dirName, e.cause)
  }

  /** Exactly an acceptable manifest that has the requested name gets through, well-formed and field by field as it is
      on disk; otherwise the error says what is wrong with it. */
  lemma LoadForMeaning(disk: Disk, name: string)
    ensures LoadFor(disk, name).Ok? <==> Loads(disk, name)
    ensures LoadFor(disk, name).Ok? ==>
              && WellFormed(LoadFor(disk, name).value) && LoadFor(disk, name).value.name == name
              && Carries(LoadFor(disk, name).value, disk.raw)
    ensures LoadFor(disk, name).Err? ==> LoadError(disk, name, LoadFor(disk, name).error)
  {
    if disk.Readable? {
      VerdictMeaning(disk.raw, disk.dirName);
    }
  }

  /** Daemon-wide cache defaults (`max_entries`, `ttl` in nanoseconds), as range-checked by the config loader. */
  datatype Defaults = Defaults(maxEntries: nat, ttl: nat)

  ghost predicate DefaultsInRange(d: Defaults) {
    && 1 <= d.maxEntries <= CACHE_MAX_ENTRIES_MAX
    && NANOS <= d.ttl <= CACHE_TTL_MAX * NANOS
  }

  datatype Bounds = Bounds(maxEntries: nat, ttl: nat)

  /** `resolve_cache_bounds`: a manifest value replaces the default, upwards as well as downwards. */
  function ResolveCacheBounds(m: Manifest, d: Defaults): Bounds {
    Bounds(if m.maxEntries.Some? then m.maxEntries.value else d.maxEntries,
           if m.ttlSeconds.Some? then m.ttlSeconds.value * NANOS else d.ttl)
  }

  ghost predicate BoundsInRange(b: Bounds) {
    && 1 <= b.maxEntries <= CACHE_MAX_ENTRIES_MAX
    && NANOS <= b.ttl <= CACHE_TTL_MAX * NANOS
  }

  /** A limit is the one the file gives, and the daemon's default where the file gives none. */
  ghost predicate BoundsFrom(raw: RawManifest, d: Defaults, b: Bounds) {
    && b.maxEntries == (match RawMax(raw) case Some(max) => max case None => d.maxEntries)
    && b.ttl == (match RawTtl(raw) case Some(seconds) => seconds * 1_000_000_000 case None => d.ttl)
  }

  lemma ResolvedBoundsInRange(m: Manifest, d: Defaults)
    requires WellFormed(m) && DefaultsInRange(d)
    ensures BoundsInRange(ResolveCacheBounds(m, d))
    ensures forall raw :: Carries(m, raw) ==> BoundsFrom(raw, d, ResolveCacheBounds(m, d))
  {
  }

  /** The documented rule "a project cannot raise cache limits above the defaults" does not
      hold of the code: it holds exactly when the manifest asks for no more than the defaults. */
  lemma ManifestCapsDefaultsOnlyWhenLower(m: Manifest, d: Defaults)
    ensures (var b := ResolveCacheBounds(m, d); b.maxEntries <= d.maxEntries && b.ttl <= d.ttl) <==>
            && (m.maxEntries.Some? ==> m.maxEntries.value <= d.maxEntries)
            && (m.ttlSeconds.Some? ==> m.ttlSeconds.value * NANOS <= d.ttl)
  {
  }

  /** A well-formed manifest that raises both limits. */
  lemma ManifestCanRaiseDefaults()
    ensures exists m, d :: WellFormed(m) && DefaultsInRange(d)
              && ResolveCacheBounds(m, d).maxEntries > d.maxEntries && ResolveCacheBounds(m, d).ttl > d.ttl
  {
    var m := Manifest(1, "a", None, [], Some(86_400), Some(1_024));
    var d := Defaults(256, 900 * NANOS);
    assert WellFormed(m) && DefaultsInRange(d);
    assert ResolveCacheBounds(m, d).maxEntries > d.maxEntries && ResolveCacheBounds(m, d).ttl > d.ttl;
  }
}

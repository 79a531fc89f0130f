/** The artifact-name law of crates/vmcell-daemon/src/name.rs and the names the store keeps for itself. */
module ArtifactNames {

  const SHA256_SIDECAR_SUFFIX: string := ".sha256"
  const UPLOAD_TEMP_PREFIX: string := ".vmcelld-tmp."
  const SCRATCH_DIR_NAME: string := ".vmcell-scratch"
  const NAME_MAX: nat := 255
  const MAX_ARTIFACT_NAME_LEN: nat := 248

  predicate IsAllowed(c: char) {
    'a' <= c <= 'z' || 'A' <= c <= 'Z' || '0' <= c <= '9' || c == '.' || c == '_' || c == '-'
  }

  /** Names of digest sidecars; no artifact may carry one. */
  predicate IsReserved(name: string) {
    |name| >= |SHA256_SIDECAR_SUFFIX| && name[|name| - |SHA256_SIDECAR_SUFFIX|..] == SHA256_SIDECAR_SUFFIX
  }

  /** One safe path component: a client-nameable artifact. */
  predicate IsValid(name: string) {
    && 0 < |name| <= MAX_ARTIFACT_NAME_LEN
    && name[0] != '-' && name[0] != '.'
    && (forall i :: 0 <= i < |name| ==> IsAllowed(name[i]))
    && !IsReserved(name)
  }

  /**
   Names the temp-file builder draws: the prefix and random alphanumerics. They may happen to end like a
   sidecar; no artifact is behind such a name.
   */
  predicate IsTemp(name: string) {
    UPLOAD_TEMP_PREFIX <= name
  }

  /** Appended, not substituted: distinct artifacts never share a sidecar. */
  function Sidecar(name: string): string {
    name + SHA256_SIDECAR_SUFFIX
  }

  /** The artifact a sidecar belongs to. */
  function ArtifactOf(sidecar: string): string {
    if IsReserved(sidecar) then sidecar[..|sidecar| - |SHA256_SIDECAR_SUFFIX|] else sidecar
  }

  lemma SidecarOf(name: string)
    ensures IsReserved(Sidecar(name)) && ArtifactOf(Sidecar(name)) == name
    ensures Sidecar(name) != name
  {
    assert Sidecar(name)[|name|..] == SHA256_SIDECAR_SUFFIX;
    assert Sidecar(name)[..|name|] == name;
  }

  lemma SidecarInjective(a: string, b: string)
    requires Sidecar(a) == Sidecar(b)
    ensures a == b
  {
    SidecarOf(a);
    SidecarOf(b);
  }

  /** The classes of name never meet: artifacts, sidecars of artifacts, temp files, the scratch directory. */
  lemma ClassesDisjoint(name: string)
    requires IsValid(name)
    ensures !IsTemp(name) && !IsReserved(name) && !IsTemp(Sidecar(name)) && !IsValid(Sidecar(name))
    ensures name != SCRATCH_DIR_NAME && Sidecar(name) != SCRATCH_DIR_NAME && !IsTemp(SCRATCH_DIR_NAME)
  {
    SidecarOf(name);
    assert Sidecar(name)[0] == name[0];
    assert UPLOAD_TEMP_PREFIX[0] == '.' && SCRATCH_DIR_NAME[0] == '.';
    assert UPLOAD_TEMP_PREFIX[7] == 'd' && SCRATCH_DIR_NAME[7] == '-';
  }

  lemma TempNotValid(name: string)
    requires IsTemp(name)
    ensures !IsValid(name)
  {
    assert UPLOAD_TEMP_PREFIX[0] == '.';
  }

  /**
   A name is accepted exactly when it is a plain file name of the allowed characters that no tool reads as
   a flag or hides, and that fits a directory entry of 255 bytes twice: alone and with its sidecar's suffix.
   */
  lemma AcceptedNames(name: string)
    ensures IsValid(name) <==>
              && name != "" && name[0] != '-' && name[0] != '.' && |Sidecar(name)| <= NAME_MAX
              && (forall c :: c in name ==>
                    'a' <= c <= 'z' || 'A' <= c <= 'Z' || '0' <= c <= '9' || c in "._-")
              && !IsReserved(name)
    ensures IsValid(name) ==> '/' !in name && '\0' !in name && name != "." && name != ".."
  {
    assert forall c :: IsAllowed(c) <==> 'a' <= c <= 'z' || 'A' <= c <= 'Z' || '0' <= c <= '9' || c in "._-";
    if forall c :: c in name ==> IsAllowed(c) {
      forall i | 0 <= i < |name| ensures IsAllowed(name[i]) {
        assert name[i] in name;
      }
    }
  }
}

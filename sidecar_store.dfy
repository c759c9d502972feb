/**
  The sidecar store of check_bitrot.py: the checksum of `path` lives in the
  text file `path + ".md5"` next to it. The sidecar files on disk are a map
  from sidecar path to the full text of the file; `os.path.isfile` is
  membership, `getChecksum` a lookup and `saveChecksum` an update.
 */
module SidecarStore {
  import opened PyStrings
  import opened IgnoreFilter
  import opened ChecksumEngine

  /** Every existing sidecar file, by path, with its text. */
  type SidecarFiles = map<string, string>

  /** `fullFilename + CHECKSUM_FILE_SUFFIX` */
  function SidecarPath(fullFilename: string): (r: string)
    ensures EndsWith(r, ChecksumFileSuffix)
    ensures |r| == |fullFilename| + |ChecksumFileSuffix| && r[..|fullFilename|] == fullFilename
  {
    fullFilename + ChecksumFileSuffix
  }

  /** Distinct files have distinct sidecars. */
  lemma SidecarPathInjective(p: string, q: string)
    requires SidecarPath(p) == SidecarPath(q)
    ensures p == q
  {
    assert p == SidecarPath(p)[..|p|];
    assert q == SidecarPath(q)[..|q|];
  }

  /** `os.path.isfile(checksumFilename)` for a sidecar path. */
  predicate IsFile(files: SidecarFiles, checksumFilename: string) {
    checksumFilename in files
  }

  /** `getChecksum(checksumFilename)`: the whole text of the sidecar with the
      surrounding white space (a trailing newline, say) removed. The program
      only calls it after `os.path.isfile` said yes; on a missing file the
      `open` raises. */
  function GetChecksum(files: SidecarFiles, checksumFilename: string): (r: string)
    requires IsFile(files, checksumFilename)
    ensures IsStripped(r)
    ensures IsStripped(files[checksumFilename]) ==> r == files[checksumFilename]
  {
    Strip(files[checksumFilename])
  }

  /** What `getChecksum` returns is the stored text with only white space
      removed around it: the text is white space, the checksum, white space. */
  lemma GetChecksumSurrounds(files: SidecarFiles, checksumFilename: string)
    requires IsFile(files, checksumFilename)
    ensures var text := files[checksumFilename];
            Surrounds(text, |text| - |TrimLeft(text)|, GetChecksum(files, checksumFilename))
  {
    StripSurrounds(files[checksumFilename]);
  }

  /** `saveChecksum(checksumFilename, checksum)`: the file is created or
      truncated and holds exactly `checksum`, with no newline; no other
      sidecar changes. */
  function SaveChecksum(files: SidecarFiles, checksumFilename: string, checksum: string): (r: SidecarFiles)
    ensures r.Keys == files.Keys + {checksumFilename}
    ensures r[checksumFilename] == checksum
    ensures forall x :: x in files && x != checksumFilename ==> r[x] == files[x]
  {
    files[checksumFilename := checksum]
  }

  /** A hex digest has no white space around it. */
  lemma DigestIsStripped(d: Digest)
    ensures IsStripped(d)
  {
    assert IsLowerHexDigit(d[0]) && IsLowerHexDigit(d[|d| - 1]);
  }

  /** Reading a sidecar right after saving gives back the stripped text that
      was saved; text without surrounding white space, a digest in particular,
      comes back unchanged. */
  lemma SaveThenGet(files: SidecarFiles, checksumFilename: string, checksum: string)
    ensures var after := SaveChecksum(files, checksumFilename, checksum);
            IsFile(after, checksumFilename) && GetChecksum(after, checksumFilename) == Strip(checksum)
    ensures IsStripped(checksum) ==>
              GetChecksum(SaveChecksum(files, checksumFilename, checksum), checksumFilename) == checksum
  {
  }

  /** The round trip for what the program actually saves: a hex digest. */
  lemma SaveDigestThenGet(files: SidecarFiles, checksumFilename: string, d: Digest)
    ensures GetChecksum(SaveChecksum(files, checksumFilename, d), checksumFilename) == d
  {
    DigestIsStripped(d);
  }
}

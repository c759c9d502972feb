/**
  The ignore filter of check_bitrot.py: a file name is skipped when it is a
  checksum sidecar (it ends in ".md5") or a vi backup file (it ends in '~').
 */
module IgnoreFilter {
  import opened PyStrings

  /** CHECKSUM_FILE_SUFFIX */
  const ChecksumFileSuffix: string := ".md5"

  /** VI_BKUP_SUFFIX */
  const ViBackupSuffix: char := '~'

  /** `isIgnoredFile(filename)`. The extension is taken with the negative
      slice `filename[-4:]`, which yields the whole name when it is shorter
      than four characters; `filename[-1]` raises on an empty name, hence the
      precondition (a directory listing never yields an empty name). */
  function IsIgnoredFile(filename: string): (r: bool)
    requires |filename| > 0
    ensures r <==> EndsWith(filename, ChecksumFileSuffix) || filename[|filename| - 1] == ViBackupSuffix
  {
    var checkFileExtensionIndex := 0 - |ChecksumFileSuffix|;
    var fileExtension := SliceFrom(filename, checkFileExtensionIndex);
    var isChecksumFile := fileExtension == ChecksumFileSuffix;
    var isViBackupFile := filename[|filename| - 1] == ViBackupSuffix;
    isChecksumFile || isViBackupFile
  }

  /** The sidecar of any file carries the checksum suffix, so the filter
      always skips it: a sidecar is never checksummed itself. */
  lemma SidecarNameIsIgnored(filename: string)
    ensures IsIgnoredFile(filename + ChecksumFileSuffix)
  {
    assert (filename + ChecksumFileSuffix)[|filename|..] == ChecksumFileSuffix;
  }

  /** The decision depends only on the file name, not on the directory in
      front of it: for a name of at least four characters any prefix is
      irrelevant, and a shorter name behind a directory that ends in the
      separator cannot be taken for a sidecar either. */
  lemma {:induction false} IgnoredIndependentOfDirectory(dir: string, filename: string)
    requires |filename| > 0
    requires |filename| >= |ChecksumFileSuffix| || dir == [] || dir[|dir| - 1] == Sep
    ensures IsIgnoredFile(dir + filename) == IsIgnoredFile(filename)
  {
    var p := dir + filename;
    assert p[|p| - 1] == filename[|filename| - 1];
    if |filename| >= |ChecksumFileSuffix| {
      assert p[|p| - 4..] == filename[|filename| - 4..];
    } else if dir != [] && |p| >= 4 {
      assert p[|dir| - 1] == Sep;
      assert p[|p| - 4..][|dir| - 1 - (|p| - 4)] == Sep;
      assert Sep !in ChecksumFileSuffix;
    }
  }
}

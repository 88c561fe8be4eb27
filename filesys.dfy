/** The part of the operating system the server consults: `os.path.isfile`,
    `os.stat(...).st_mode` and `open(...).read()`, answered from a read-only
    snapshot taken when the request arrives. */
module FileSys {
  import opened Wrappers
  import opened PyStr

  /** What the operating system reports for one path: the full `st_mode`
      (file-type bits and permission bits) and what reading it as text yields,
      `None` when `open` or `read` raises. */
  datatype FileInfo = FileInfo(mode: nat, contents: Option<string>)

  /** Paths, relative to the working directory, exactly as handed to the OS. */
  type Snapshot = map<string, FileInfo>

  /** `os.stat(path)`; the empty path names nothing. */
  function Stat(fs: Snapshot, path: string): Option<FileInfo>
  {
    if path == "" || path !in fs then None else Some(fs[path])
  }

  /** `S_ISREG(mode)`: `mode & 0o170000 == 0o100000`. */
  predicate IsRegularMode(mode: nat)
  {
    (mode / 0x1000) % 0x10 == 0x8
  }

  /** `os.path.isfile(path)`. */
  predicate IsFile(fs: Snapshot, path: string)
  {
    Stat(fs, path).Some? && IsRegularMode(Stat(fs, path).value.mode)
  }

  /** `open(path, "r").read()`, `None` when it raises. */
  function Open(fs: Snapshot, path: string): Option<string>
  {
    if Stat(fs, path).Some? then Stat(fs, path).value.contents else None
  }

  /** The "others may read" permission bit, `S_IROTH` (0o004). */
  predicate OthersMayRead(mode: nat)
  {
    (mode / 4) % 2 == 1
  }

  /** `bin(mode)[-9:][6]`, the digit the server compares with `'1'`. Python raises
      `IndexError` below 16, where `bin(mode)` has fewer than seven characters. */
  function PermDigit(mode: nat): char
    requires mode >= 16
  {
    BinDigitsLength(mode, 4);
    TakeLast(Bin(mode), 9)[6]
  }

  /** Once `bin(mode)` has at least seven digits, the digit the server tests is the
      others-read bit. */
  lemma PermDigitIsOthersRead(mode: nat)
    requires mode >= 64
    ensures PermDigit(mode) == '1' <==> OthersMayRead(mode)
  {
    BinDigitsLength(mode, 6);
    ThirdLastDigit(mode);
    var b := Bin(mode);
    var d := BinDigits(mode);
    assert TakeLast(b, 9)[6] == b[|b| - 3] == d[|d| - 3];
  }

  /** Every regular file's mode carries `S_IFREG`, so it is at least 0o100000. */
  lemma RegularModeIsLarge(mode: nat)
    requires IsRegularMode(mode)
    ensures mode >= 0x8000
  {
  }

  /** For a regular file the server's digit test is exactly the others-read bit. */
  lemma RegularPermDigit(fs: Snapshot, path: string)
    requires IsFile(fs, path)
    ensures Stat(fs, path).value.mode >= 16
    ensures PermDigit(Stat(fs, path).value.mode) == '1' <==> OthersMayRead(Stat(fs, path).value.mode)
  {
    RegularModeIsLarge(Stat(fs, path).value.mode);
    PermDigitIsOthersRead(Stat(fs, path).value.mode);
  }
}

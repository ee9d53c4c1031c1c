/**
 * What the monitor does to turn a record's descriptor and process id into
 * text: the `/proc` paths it formats with `%d`, the zero-filled buffers that
 * `readlink` and `fgets` write into, and the C strings read back out of them.
 * The contents of `/proc` are oracle inputs; only the buffer sizes and the
 * libc rules on how much is copied are modelled.
 */
module Resolution {
  import opened EventMetadata

  datatype Option<T> = None | Some(value: T)

  /** `PATH_MAX`: the size of the zero-filled `path` buffer. */
  const PathMax: nat := 4096
  /** The size of the zero-filled `procCmd` buffer. */
  const ProcCmdSize: nat := 256
  /** The size of the `linkPath` buffer both `/proc` paths are formatted into. */
  const LinkPathSize: nat := 64

  const Nul: bv8 := 0
  const Newline: bv8 := 0x0A

  // ---------------------------------------------------------------- decimal

  function DigitChar(d: nat): (c: char)
    requires d < 10
    ensures '0' <= c <= '9'
  {
    "0123456789"[d]
  }

  function DigitValue(c: char): nat
    requires '0' <= c <= '9'
  {
    c as int - '0' as int
  }

  /** The decimal digits of `n`, most significant first, as `%d` prints a non-negative value. */
  function Digits(n: nat): (s: string)
    ensures |s| >= 1
    ensures forall i :: 0 <= i < |s| ==> '0' <= s[i] <= '9'
  {
    if n < 10 then [DigitChar(n)] else Digits(n / 10) + [DigitChar(n % 10)]
  }

  /** The number a string of decimal digits denotes. */
  function ValueOf(s: string): nat
    requires forall i :: 0 <= i < |s| ==> '0' <= s[i] <= '9'
  {
    if s == [] then 0 else 10 * ValueOf(s[..|s| - 1]) + DigitValue(s[|s| - 1])
  }

  /** `%d` of an integer: a '-' exactly for negative values, then only digits. */
  function Decimal(x: int): (s: string)
    ensures |s| >= 1 && (s[0] == '-' <==> x < 0)
    ensures forall i :: (if x < 0 then 1 else 0) <= i < |s| ==> '0' <= s[i] <= '9'
  {
    if x < 0 then "-" + Digits(-x) else Digits(x)
  }

  function Pow10(k: nat): (p: nat)
    ensures p >= 1
  {
    if k == 0 then 1 else 10 * Pow10(k - 1)
  }

  /** Reading the digits back gives the number: `Digits` loses nothing. */
  lemma {:induction false} ValueOfDigits(n: nat)
    ensures ValueOf(Digits(n)) == n
  {
    var s := Digits(n);
    if n >= 10 {
      ValueOfDigits(n / 10);
      assert s[..|s| - 1] == Digits(n / 10);
    }
  }

  /** A number below 10^k has at most k digits (and always at least one). */
  lemma {:induction false} DigitsLength(n: nat, k: nat)
    requires 1 <= k && n < Pow10(k)
    ensures |Digits(n)| <= k
  {
    if n >= 10 {
      assert Pow10(1) == 10;
      DigitsLength(n / 10, k - 1);
    }
  }

  /** Any 32-bit value prints in at most 11 characters ("-2147483648"). */
  lemma DecimalInt32Length(x: int)
    requires -0x8000_0000 <= x < 0x8000_0000
    ensures |Decimal(x)| <= 11
  {
    assert Pow10(10) == 10_000_000_000 by {
      assert Pow10(2) == 100;
      assert Pow10(4) == 10 * (10 * Pow10(2));
      assert Pow10(6) == 10 * (10 * Pow10(4));
      assert Pow10(8) == 10 * (10 * Pow10(6));
      assert Pow10(10) == 10 * (10 * Pow10(8));
    }
    if x < 0 { DigitsLength(-x, 10); } else { DigitsLength(x, 10); }
  }

  lemma DigitsInjective(a: nat, b: nat)
    requires Digits(a) == Digits(b)
    ensures a == b
  {
    ValueOfDigits(a);
    ValueOfDigits(b);
  }

  /** Two values print alike only if they are equal. */
  lemma DecimalInjective(x: int, y: int)
    requires Decimal(x) == Decimal(y)
    ensures x == y
  {
    if x < 0 && y < 0 {
      assert Digits(-x) == Decimal(x)[1..];
      assert Digits(-y) == Decimal(y)[1..];
      DigitsInjective(-x, -y);
    } else if x >= 0 && y >= 0 {
      DigitsInjective(x, y);
    } else {
      assert false;
    }
  }

  // -------------------------------------------------------------- snprintf

  /** `snprintf(dst, size, ...)` leaves at most `size - 1` characters before the terminator. */
  function Snprintf(s: string, size: nat): (r: string)
    requires size >= 1
    ensures |r| <= size - 1 && r <= s
    ensures |s| < size ==> r == s
    ensures |s| >= size ==> r == s[..size - 1]
  {
    if |s| < size then s else s[..size - 1]
  }

  /** `"/proc/self/fd/%d"` for the record's descriptor. */
  function FdLinkPath(fd: bv32): (p: string)
    ensures 15 <= |p| <= 25 && p[..14] == "/proc/self/fd/"
  {
    DecimalInt32Length(Signed32(fd));
    "/proc/self/fd/" + Decimal(Signed32(fd))
  }

  /** `"/proc/%d/cmdline"` for the record's process id. */
  function CmdlinePath(pid: bv32): (p: string)
    ensures 15 <= |p| <= 25 && p[..6] == "/proc/" && p[|p| - 8..] == "/cmdline"
  {
    DecimalInt32Length(Signed32(pid));
    "/proc/" + Decimal(Signed32(pid)) + "/cmdline"
  }

  /** Both formatted paths have at most 25 characters, so the 64-byte `linkPath` never truncates them. */
  lemma LinkPathsFit(fd: bv32, pid: bv32)
    ensures |FdLinkPath(fd)| <= 25 && |CmdlinePath(pid)| <= 25
    ensures Snprintf(FdLinkPath(fd), LinkPathSize) == FdLinkPath(fd)
    ensures Snprintf(CmdlinePath(pid), LinkPathSize) == CmdlinePath(pid)
  {
    DecimalInt32Length(Signed32(fd));
    DecimalInt32Length(Signed32(pid));
  }

  /** The descriptor path names the record's own descriptor: different descriptors give different paths. */
  lemma FdLinkPathInjective(a: bv32, b: bv32)
    requires FdLinkPath(a) == FdLinkPath(b)
    ensures Signed32(a) == Signed32(b) && a == b
  {
    var p := "/proc/self/fd/";
    assert FdLinkPath(a)[|p|..] == Decimal(Signed32(a));
    assert FdLinkPath(b)[|p|..] == Decimal(Signed32(b));
    DecimalInjective(Signed32(a), Signed32(b));
    Signed32Injective(a, b);
  }

  // ------------------------------------------------------------- C strings

  function Zeros(n: nat): (z: seq<bv8>)
    ensures |z| == n && forall i :: 0 <= i < n ==> z[i] == Nul
  {
    seq(n, _ => Nul)
  }

  /** A buffer of `size` zero bytes after a call wrote `w` at its start. */
  function Filled(size: nat, w: seq<bv8>): (b: seq<bv8>)
    requires |w| <= size
    ensures |b| == size && b[..|w|] == w
  {
    w + Zeros(size - |w|)
  }

  /** The C string a buffer holds: the bytes before its first NUL. */
  function CString(b: seq<bv8>): (s: seq<bv8>)
    ensures s <= b && Nul !in s
    ensures |s| < |b| ==> b[|s|] == Nul
  {
    if b == [] || b[0] == Nul then [] else [b[0]] + CString(b[1..])
  }

  /** Zero bytes after a write do not change the C string, provided the buffer keeps a terminator. */
  lemma {:induction false} CStringOfFilled(size: nat, w: seq<bv8>)
    requires |w| < size
    ensures CString(Filled(size, w)) == CString(w)
  {
    if w != [] && w[0] != Nul {
      assert Filled(size, w)[1..] == Filled(size - 1, w[1..]);
      CStringOfFilled(size - 1, w[1..]);
    }
  }

  // ------------------------------------------------------------- readlink

  /** The bytes `readlink` copies: at most `bufsiz` of the link target, no terminator. */
  function Readlink(target: seq<bv8>, bufsiz: nat): (w: seq<bv8>)
    ensures |w| <= bufsiz && w <= target
    ensures |target| <= bufsiz ==> w == target
    ensures |target| > bufsiz ==> w == target[..bufsiz]
  {
    if |target| <= bufsiz then target else target[..bufsiz]
  }

  /** `path` after `char path[PATH_MAX] = {0}` and `readlink(linkPath, path, PATH_MAX - 1)`; a failed lookup writes nothing. */
  function PathBuffer(link: Option<seq<bv8>>): (b: seq<bv8>)
    ensures |b| == PathMax && b[PathMax - 1] == Nul
  {
    match link
    case None => Zeros(PathMax)
    case Some(target) => Filled(PathMax, Readlink(target, PathMax - 1))
  }

  /** The path string handed on: empty after a failed lookup, else the C string of what `readlink` copied. */
  function ResolvedPath(link: Option<seq<bv8>>): (p: seq<bv8>)
    ensures |p| <= PathMax - 1 && Nul !in p
    ensures link.None? ==> p == []
    ensures link.Some? ==> p <= link.value
  {
    match link
    case None => []
    case Some(target) => CString(Readlink(target, PathMax - 1))
  }

  /**
   * The path is the C string left in the zero-initialised `path` buffer. A failed lookup
   * gives the empty path; a successful one gives the target's leading bytes, at most
   * `PATH_MAX - 1` of them: all of a short target without NUL, and exactly the first
   * `PATH_MAX - 1` bytes of a longer target without NUL among them.
   */
  lemma ResolvedPathSpec(link: Option<seq<bv8>>)
    ensures ResolvedPath(link) == CString(PathBuffer(link))
    ensures link.None? ==> ResolvedPath(link) == []
    ensures link.Some? ==> ResolvedPath(link) <= link.value
    ensures |ResolvedPath(link)| <= PathMax - 1 && Nul !in ResolvedPath(link)
    ensures link.Some? && |link.value| <= PathMax - 1 && Nul !in link.value
            ==> ResolvedPath(link) == link.value
    ensures link.Some? && |link.value| > PathMax - 1 && Nul !in link.value[..PathMax - 1]
            ==> ResolvedPath(link) == link.value[..PathMax - 1]
  {
    match link
    case None =>
      assert PathBuffer(link)[0] == Nul;
    case Some(target) =>
      var w := Readlink(target, PathMax - 1);
      CStringOfFilled(PathMax, w);
      if Nul !in w { CStringWhole(w); }
      if |target| > PathMax - 1 && Nul !in target[..PathMax - 1] {
        CStringWhole(target[..PathMax - 1]);
      }
  }

  /** A byte string without NUL is its own C string. */
  lemma {:induction false} CStringWhole(w: seq<bv8>)
    requires Nul !in w
    ensures CString(w) == w
  {
    if w != [] {
      assert w[0] in w;
      assert forall i :: 0 <= i < |w| - 1 ==> w[1..][i] == w[i + 1];
      CStringWhole(w[1..]);
    }
  }

  // ---------------------------------------------------------------- fgets

  /** The bytes `fgets(dst, n, f)` stores from `content`: up to `n - 1`, stopping after a newline. */
  function FgetsLine(content: seq<bv8>, n: nat): (w: seq<bv8>)
    requires n >= 1
    ensures |w| <= n - 1 && w <= content
    decreases n
  {
    if n == 1 || content == [] then []
    else if content[0] == Newline then [content[0]]
    else [content[0]] + FgetsLine(content[1..], n - 1)
  }

  /** `procCmd` after `char procCmd[256] = {0}` and, if `fopen` succeeded, one `fgets`. */
  function ProcCmdBuffer(cmdline: Option<seq<bv8>>): (b: seq<bv8>)
    ensures |b| == ProcCmdSize && b[ProcCmdSize - 1] == Nul
  {
    match cmdline
    case None => Zeros(ProcCmdSize)
    case Some(content) => Filled(ProcCmdSize, FgetsLine(content, ProcCmdSize))
  }

  /** The process name handed on: empty if the file could not be opened, else the C string of the line `fgets` stored. */
  function ProcessName(cmdline: Option<seq<bv8>>): (name: seq<bv8>)
    ensures |name| <= ProcCmdSize - 1 && Nul !in name
    ensures cmdline.None? ==> name == []
    ensures cmdline.Some? ==> name <= cmdline.value
  {
    match cmdline
    case None => []
    case Some(content) => CString(FgetsLine(content, ProcCmdSize))
  }

  /** Where `fgets` stops: it copies a leading run of `content` with no newline before its end. */
  lemma {:induction false} FgetsLineShape(content: seq<bv8>, n: nat)
    requires n >= 1
    ensures var w := FgetsLine(content, n);
      && (forall j :: 0 <= j < |w| - 1 ==> w[j] != Newline)
      && (|w| < n - 1 && |w| < |content| ==> w != [] && w[|w| - 1] == Newline)
    decreases n
  {
    if n > 1 && content != [] && content[0] != Newline {
      FgetsLineShape(content[1..], n - 1);
      var w := FgetsLine(content, n);
      assert forall j :: 1 <= j < |w| ==> w[j] == FgetsLine(content[1..], n - 1)[j - 1];
    }
  }

  /**
   * The name is the C string left in the zero-initialised `procCmd` buffer.
   * An unreadable `/proc/<pid>/cmdline` gives the empty name. Otherwise the name is a
   * leading part of the file of at most 255 bytes with no NUL and no newline before its
   * last byte, and it stops early only at a NUL or right after a newline.
   */
  lemma ProcessNameSpec(cmdline: Option<seq<bv8>>)
    ensures ProcessName(cmdline) == CString(ProcCmdBuffer(cmdline))
    ensures cmdline.None? ==> ProcessName(cmdline) == []
    ensures var name := ProcessName(cmdline);
      && |name| <= ProcCmdSize - 1 && Nul !in name
      && (cmdline.Some? ==> name <= cmdline.value)
      && (forall j :: 0 <= j < |name| - 1 ==> name[j] != Newline)
    ensures cmdline.Some? ==>
      var name := ProcessName(cmdline);
      |name| < ProcCmdSize - 1 && |name| < |cmdline.value| ==>
        cmdline.value[|name|] == Nul || (name != [] && name[|name| - 1] == Newline)
  {
    match cmdline
    case None =>
      assert ProcCmdBuffer(cmdline)[0] == Nul;
    case Some(content) =>
      var w := FgetsLine(content, ProcCmdSize);
      CStringOfFilled(ProcCmdSize, w);
      FgetsLineShape(content, ProcCmdSize);
      var name := CString(w);
      assert forall j :: 0 <= j < |name| ==> name[j] == w[j];
      if |name| < |w| {
        assert w[|name|] == Nul;
        assert content[|name|] == w[|name|];
      }
  }
}

// The path of a numbered block file: `blk` and the file's index as at least
// five decimal digits, zero-padded, then `.dat`, placed in the block directory.

module BlockPath {

  /** `uint32_t`: a block file's index. */
  type uint32 = x: int | 0 <= x < 0x1_0000_0000

  const NAME_WIDTH: nat := 5

  predicate IsDigit(ch: char) {
    '0' <= ch <= '9'
  }

  predicate AllDigits(s: string) {
    forall i :: 0 <= i < |s| ==> IsDigit(s[i])
  }

  function DigitChar(d: nat): (ch: char)
    requires d < 10
    ensures IsDigit(ch) && ch as int - '0' as int == d
  {
    ('0' as int + d) as char
  }

  /** The number a string of decimal digits denotes, most significant first. */
  function DecimalValue(s: string): nat
    requires AllDigits(s)
  {
    if s == [] then 0
    else DecimalValue(s[..|s| - 1]) * 10 + (s[|s| - 1] as int - '0' as int)
  }

  /** `%u`: the decimal digits of `n`, with no leading zero unless `n` is 0. */
  function Decimal(n: nat): (s: string)
    ensures 1 <= |s| && AllDigits(s)
    ensures s[0] == '0' ==> n == 0
  {
    if n < 10 then [DigitChar(n)]
    else Decimal(n / 10) + [DigitChar(n % 10)]
  }

  function Zeros(k: nat): (s: string)
    ensures |s| == k && AllDigits(s)
  {
    if k == 0 then [] else Zeros(k - 1) + ['0']
  }

  /** `%05u`: the decimal digits of `n`, zero-padded on the left to five characters. */
  function Padded(n: nat): (s: string)
    ensures AllDigits(s) && NAME_WIDTH <= |s|
    // padding only ever fills up to the width; longer numbers are written as they are
    ensures |s| == NAME_WIDTH || s == Decimal(n)
  {
    var d := Decimal(n);
    if |d| < NAME_WIDTH then Zeros(NAME_WIDTH - |d|) + d else d
  }

  /** The file name of block file `index`. */
  function BlockFileName(index: uint32): (name: string)
    ensures '/' !in name
  {
    "blk" + Padded(index) + ".dat"
  }

  /** `compose_block_file_path`: the file name alone for an empty directory,
      otherwise the directory, a `/` unless it already ends in one, and the name. */
  function ComposeBlockFilePath(dbPath: string, index: uint32): (path: string)
    ensures dbPath == [] ==> path == BlockFileName(index)
    ensures dbPath != [] ==>
      |BlockFileName(index)| < |path| && path[|path| - |BlockFileName(index)|..] == BlockFileName(index)
    ensures dbPath != [] ==>
      var dir := path[..|path| - |BlockFileName(index)|];
      dir == if dbPath[|dbPath| - 1] == '/' then dbPath else dbPath + "/"
  {
    var name := BlockFileName(index);
    if dbPath == [] then name
    else if dbPath[|dbPath| - 1] == '/' then dbPath + name
    else dbPath + "/" + name
  }

  // ---------------------------------------------------------------------------
  // Reading an index back
  // ---------------------------------------------------------------------------

  datatype Option<T> = None | Some(value: T)

  /** The index a block file name carries: `blk`, at least five digits, `.dat`. */
  function BlockFileIndex(name: string): Option<nat> {
    if |name| < 3 + NAME_WIDTH + 4 || name[..3] != "blk" || name[|name| - 4..] != ".dat" then None
    else
      var digits := name[3..|name| - 4];
      if AllDigits(digits) then Some(DecimalValue(digits)) else None
  }

  /** The part of a path after its last `/`. */
  function BaseName(path: string): (base: string)
    ensures '/' !in base
  {
    if path == [] || path[|path| - 1] == '/' then []
    else BaseName(path[..|path| - 1]) + [path[|path| - 1]]
  }

  lemma {:induction false} DecimalValueOfDecimal(n: nat)
    ensures DecimalValue(Decimal(n)) == n
  {
    if n >= 10 {
      var s := Decimal(n);
      assert s[..|s| - 1] == Decimal(n / 10);
      DecimalValueOfDecimal(n / 10);
    }
  }

  /** Leading zeros do not change a decimal value. */
  lemma {:induction false} DecimalValueOfZeros(k: nat, s: string)
    requires AllDigits(s)
    ensures DecimalValue(Zeros(k) + s) == DecimalValue(s)
  {
    if s == [] {
      assert Zeros(k) + s == Zeros(k);
      ZerosValue(k);
    } else {
      var t := Zeros(k) + s;
      assert t[..|t| - 1] == Zeros(k) + s[..|s| - 1];
      DecimalValueOfZeros(k, s[..|s| - 1]);
    }
  }

  lemma {:induction false} ZerosValue(k: nat)
    ensures DecimalValue(Zeros(k)) == 0
  {
    if k > 0 {
      assert Zeros(k)[..k - 1] == Zeros(k - 1);
      ZerosValue(k - 1);
    }
  }

  function Pow10(k: nat): (p: nat)
    ensures p >= 1
  {
    if k == 0 then 1 else 10 * Pow10(k - 1)
  }

  /** `n` takes at most `k` decimal digits exactly when it is below 10^k. */
  lemma {:induction false} DecimalLength(n: nat, k: nat)
    requires 1 <= k
    ensures |Decimal(n)| <= k <==> n < Pow10(k)
  {
    if n < 10 {
      Pow10AtLeastTen(k);
    } else if k == 1 {
      assert |Decimal(n)| == |Decimal(n / 10)| + 1;
    } else {
      DecimalLength(n / 10, k - 1);
      assert n / 10 < Pow10(k - 1) <==> n < 10 * Pow10(k - 1);
    }
  }

  lemma {:induction false} Pow10AtLeastTen(k: nat)
    requires 1 <= k
    ensures Pow10(k) >= 10
  {
    if k > 1 {
      Pow10AtLeastTen(k - 1);
    }
  }

  /** A block file's name has exactly five digits for indices below 100000, the
      width of `%05u`, and more only for larger indices. */
  lemma PaddedWidth(n: nat)
    ensures |Padded(n)| == NAME_WIDTH <==> n < 100000
  {
    DecimalLength(n, NAME_WIDTH);
    assert Pow10(NAME_WIDTH) == 100000;
  }

  /** The padded digits still denote the number. */
  lemma PaddedValue(n: nat)
    ensures DecimalValue(Padded(n)) == n
  {
    var d := Decimal(n);
    DecimalValueOfDecimal(n);
    if |d| < NAME_WIDTH {
      DecimalValueOfZeros(NAME_WIDTH - |d|, d);
    }
  }

  /** Reading the index back from the name gives the index the name was made from. */
  lemma BlockFileIndexOfName(index: uint32)
    ensures BlockFileIndex(BlockFileName(index)) == Some(index)
  {
    var name := BlockFileName(index);
    var digits := Padded(index);
    assert name[..3] == "blk" && name[|name| - 4..] == ".dat";
    assert name[3..|name| - 4] == digits;
    PaddedValue(index);
  }

  /** Different block files have different names. */
  lemma BlockFileNameInjective(i: uint32, j: uint32)
    ensures BlockFileName(i) == BlockFileName(j) <==> i == j
  {
    if BlockFileName(i) == BlockFileName(j) {
      BlockFileIndexOfName(i);
      BlockFileIndexOfName(j);
    }
  }

  /** A name without `/` appended to a directory part that is empty or ends in
      `/` is the whole base name. */
  lemma {:induction false} BaseNameAfterSlash(dir: string, name: string)
    requires dir == [] || dir[|dir| - 1] == '/'
    requires '/' !in name
    ensures BaseName(dir + name) == name
  {
    if name == [] {
      assert dir + name == dir;
    } else {
      var p := dir + name;
      assert p[..|p| - 1] == dir + name[..|name| - 1];
      assert p[|p| - 1] == name[|name| - 1];
      BaseNameAfterSlash(dir, name[..|name| - 1]);
    }
  }

  /** The composed path names block file `index`, and the index can be read back
      from the path's last component. */
  lemma BlockFileIndexOfPath(dbPath: string, index: uint32)
    ensures BaseName(ComposeBlockFilePath(dbPath, index)) == BlockFileName(index)
    ensures BlockFileIndex(BaseName(ComposeBlockFilePath(dbPath, index))) == Some(index)
  {
    var name := BlockFileName(index);
    if dbPath == [] {
      BaseNameAfterSlash([], name);
      assert [] + name == name;
    } else if dbPath[|dbPath| - 1] == '/' {
      BaseNameAfterSlash(dbPath, name);
    } else {
      assert dbPath + "/" + name == (dbPath + "/") + name;
      BaseNameAfterSlash(dbPath + "/", name);
    }
    BlockFileIndexOfName(index);
  }
}

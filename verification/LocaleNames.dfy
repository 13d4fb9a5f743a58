/** Parts of locale names and the file names built from them (intl/l10nflist.c, intl/loadinfo.h). */
module LocaleNames {
  import opened BitMasks
  import opened Wrappers

  const CEN_REVISION := 1
  const CEN_SPONSOR := 2
  const CEN_SPECIAL := 4
  const XPG_NORM_CODESET := 8
  const XPG_CODESET := 16
  const TERRITORY := 32
  const CEN_AUDIENCE := 64
  const XPG_MODIFIER := 128

  const CEN_SPECIFIC := 71
  const XPG_SPECIFIC := 152

  const PATH_SEPARATOR := ':'

  /** `(mask & bits) != 0`. */
  predicate Has(mask: nat, bits: nat) {
    And(mask, bits) != 0
  }

  /** The exploded parts; a part whose bit is not set is never looked at. */
  datatype Parts = Parts(language: string, territory: string, codeset: string, normalized: string,
                         modifier: string, special: string, sponsor: string, revision: string)

  /** An optional piece of a file name: a separator and a part. */
  function Piece(present: bool, sep: char, part: string): string {
    if present then [sep] + part else []
  }

  /** `before`, then the language and the parts that XPG names have. */
  function XpgOnto(before: string, mask: nat, p: Parts): string {
    before + p.language
    + Piece(Has(mask, TERRITORY), '_', p.territory)
    + Piece(Has(mask, XPG_CODESET), '.', p.codeset)
    + Piece(Has(mask, XPG_NORM_CODESET), '.', p.normalized)
    + Piece(Has(mask, XPG_MODIFIER) || Has(mask, CEN_AUDIENCE), if Has(mask, CEN_AUDIENCE) then '+' else '@',
            p.modifier)
  }

  /** `before`, then the parts that only CEN names have. */
  function CenOnto(before: string, mask: nat, p: Parts): string {
    before
    + Piece(Has(mask, CEN_SPECIAL), '+', p.special)
    + Piece(Has(mask, CEN_SPONSOR) || Has(mask, CEN_REVISION), ',', if Has(mask, CEN_SPONSOR) then p.sponsor else [])
    + Piece(Has(mask, CEN_REVISION), '_', p.revision)
  }

  /** The locale's directory name for the parts selected by `mask`. */
  function Stem(mask: nat, p: Parts): string {
    CenOnto(XpgOnto([], mask, p), mask, p)
  }

  lemma OntoPrefix(before: string, mask: nat, p: Parts)
    ensures CenOnto(XpgOnto(before, mask, p), mask, p) == before + Stem(mask, p)
  {
    hide Has, Piece;
    assert XpgOnto(before, mask, p) == before + XpgOnto([], mask, p);
    hide XpgOnto;
    assert CenOnto(before + XpgOnto([], mask, p), mask, p) == before + CenOnto(XpgOnto([], mask, p), mask, p);
  }

  // ----- argz vectors -----

  /** A C string holds no NUL. */
  predicate NoNul(s: string) {
    forall i :: 0 <= i < |s| ==> s[i] != '\0'
  }

  ghost predicate Names(dirs: seq<string>) {
    forall i :: 0 <= i < |dirs| ==> NoNul(dirs[i])
  }

  /** The argz vector of some strings: each closed by `sep`, which is NUL in the vector proper. */
  function Closed(dirs: seq<string>, sep: char): string {
    if dirs == [] then [] else dirs[0] + [sep] + Closed(dirs[1..], sep)
  }

  function Argz(dirs: seq<string>): string {
    Closed(dirs, '\0')
  }

  /** The strings joined by `sep`. */
  function Joined(dirs: seq<string>, sep: char): string {
    if dirs == [] then [] else if |dirs| == 1 then dirs[0] else dirs[0] + [sep] + Joined(dirs[1..], sep)
  }

  /** The full file name. */
  function FileName(dirs: seq<string>, mask: nat, p: Parts, filename: string): string {
    Joined(dirs, PATH_SEPARATOR) + "/" + Stem(mask, p) + "/" + filename
  }

  /** The number of characters `_nl_make_l10nflist` allocates for it. */
  function Allocated(argzLen: nat, mask: nat, p: Parts, filename: string): nat {
    argzLen + |p.language|
    + (if Has(mask, TERRITORY) then |p.territory| + 1 else 0)
    + (if Has(mask, XPG_CODESET) then |p.codeset| + 1 else 0)
    + (if Has(mask, XPG_NORM_CODESET) then |p.normalized| + 1 else 0)
    + (if Has(mask, XPG_MODIFIER) || Has(mask, CEN_AUDIENCE) then |p.modifier| + 1 else 0)
    + (if Has(mask, CEN_SPECIAL) then |p.special| + 1 else 0)
    + (if Has(mask, CEN_SPONSOR) || Has(mask, CEN_REVISION) then
         1 + (if Has(mask, CEN_SPONSOR) then |p.sponsor| + 1 else 0)
         + (if Has(mask, CEN_REVISION) then |p.revision| + 1 else 0)
       else 0)
    + 1 + |filename| + 1
  }

  lemma {:induction false} ArgzLength(dirs: seq<string>, sep: char)
    requires dirs != []
    ensures |Argz(dirs)| == |Joined(dirs, sep)| + 1
  {
    if |dirs| == 1 {
      assert Closed(dirs[1..], '\0') == [];
    } else {
      ArgzLength(dirs[1..], sep);
    }
  }

  lemma StemLength(mask: nat, p: Parts)
    ensures |Stem(mask, p)| == |p.language|
      + |Piece(Has(mask, TERRITORY), '_', p.territory)| + |Piece(Has(mask, XPG_CODESET), '.', p.codeset)|
      + |Piece(Has(mask, XPG_NORM_CODESET), '.', p.normalized)|
      + |Piece(Has(mask, XPG_MODIFIER) || Has(mask, CEN_AUDIENCE), '@', p.modifier)|
      + |Piece(Has(mask, CEN_SPECIAL), '+', p.special)|
      + |Piece(Has(mask, CEN_SPONSOR) || Has(mask, CEN_REVISION), ',',
               if Has(mask, CEN_SPONSOR) then p.sponsor else [])|
      + |Piece(Has(mask, CEN_REVISION), '_', p.revision)|
  {
    hide Has;
  }

  /** The allocation is enough for the name and its NUL, with one character to spare exactly when there is a sponsor. */
  lemma AllocationSuffices(dirs: seq<string>, mask: nat, p: Parts, filename: string)
    requires dirs != []
    ensures Allocated(|Argz(dirs)|, mask, p, filename)
         == |FileName(dirs, mask, p, filename)| + 1 + if Has(mask, CEN_SPONSOR) then 1 else 0
  {
    hide Has, Stem;
    ArgzLength(dirs, PATH_SEPARATOR);
    StemLength(mask, p);
  }

  /** `argz_count__`. */
  method ArgzCount(argz: string, ghost dirs: seq<string>) returns (count: nat)
    requires Names(dirs) && argz == Argz(dirs)
    ensures count == |dirs|
  {
    var pos := 0;
    count := 0;
    while pos < |argz|
      invariant count <= |dirs| && pos <= |argz| && argz[pos..] == Argz(dirs[count..])
    {
      var partLen := StrLen(argz, pos, dirs[count..]);
      NextEntry(argz, pos, dirs[count..]);
      assert dirs[count..][1..] == dirs[count + 1..];
      pos := pos + partLen + 1;
      count := count + 1;
    }
    EmptyArgz(dirs[count..]);
  }

  lemma EmptyArgz(dirs: seq<string>)
    ensures Argz(dirs) == [] <==> dirs == []
  {
  }

  lemma NextEntry(argz: string, pos: nat, dirs: seq<string>)
    requires pos <= |argz| && argz[pos..] == Argz(dirs) && dirs != []
    ensures pos + |dirs[0]| < |argz|
    ensures argz[pos..pos + |dirs[0]|] == dirs[0] && argz[pos + |dirs[0]|] == '\0'
    ensures argz[pos + |dirs[0]| + 1..] == Argz(dirs[1..])
  {
  }

  /** `strlen` on an entry of the vector. */
  method StrLen(argz: string, pos: nat, ghost dirs: seq<string>) returns (len: nat)
    requires Names(dirs) && dirs != [] && pos <= |argz| && argz[pos..] == Argz(dirs)
    ensures len == |dirs[0]|
  {
    NextEntry(argz, pos, dirs);
    len := 0;
    while argz[pos + len] != '\0'
      invariant len <= |dirs[0]|
      decreases |dirs[0]| - len
    {
      assert len < |dirs[0]|;
      len := len + 1;
    }
  }

  /** The offset of entry `k` of a vector. */
  function Offset(dirs: seq<string>, k: nat): nat
    requires k <= |dirs|
  {
    if k == 0 then 0 else |dirs[0]| + 1 + Offset(dirs[1..], k - 1)
  }

  lemma {:induction false} OffsetReaches(dirs: seq<string>, k: nat)
    requires k <= |dirs|
    ensures Offset(dirs, k) <= |Argz(dirs)| && Argz(dirs)[Offset(dirs, k)..] == Argz(dirs[k..])
    ensures k < |dirs| ==> Offset(dirs, k) < |Argz(dirs)| && Offset(dirs, k + 1) == Offset(dirs, k) + |dirs[k]| + 1
    decreases k
  {
    if k == 0 {
      if dirs != [] {
        assert Offset(dirs[1..], 0) == 0;
      }
    } else {
      OffsetReaches(dirs[1..], k - 1);
      assert Argz(dirs) == dirs[0] + ['\0'] + Argz(dirs[1..]);
      assert Argz(dirs)[Offset(dirs, k)..] == Argz(dirs[1..])[Offset(dirs[1..], k - 1)..];
      assert dirs[1..][k - 1..] == dirs[k..];
    }
  }

  /** `argz_next__`: the offset of the entry after `entry`, or of the first one. */
  method ArgzNext(argz: string, entry: Option<nat>, ghost dirs: seq<string>, ghost k: nat) returns (next: Option<nat>)
    requires Names(dirs) && argz == Argz(dirs) && k <= |dirs|
    requires if k == 0 then entry == None else entry == Some(Offset(dirs, k - 1))
    ensures next == if k < |dirs| then Some(Offset(dirs, k)) else None
  {
    OffsetReaches(dirs, k);
    EmptyArgz(dirs[k..]);
    if entry == None {
      return if |argz| > 0 then Some(0) else None;
    }
    OffsetReaches(dirs, k - 1);
    assert dirs[k - 1..][0] == dirs[k - 1];
    var len := StrLen(argz, entry.value, dirs[k - 1..]);
    var after := entry.value + len + 1;
    next := if after >= |argz| then None else Some(after);
  }

  // ----- building the name in its buffer -----

  /** `argz_stringify__` on the first `len` characters of `buf`: every NUL but the last becomes `sep`. */
  method ArgzStringify(buf: array<char>, len: nat, sep: char, ghost dirs: seq<string>)
    requires Names(dirs) && dirs != [] && len <= buf.Length && buf[..len] == Argz(dirs)
    modifies buf
    ensures buf[..len] == Joined(dirs, sep) + ['\0']
  {
    var pos := 0;
    ghost var k := 0;
    while pos < len
      invariant k <= |dirs| && pos <= len
      invariant buf[pos..len] == Argz(dirs[k..])
      invariant k < |dirs| ==> buf[..pos] == Closed(dirs[..k], sep)
      invariant k == |dirs| ==> pos == len && buf[..len] == Joined(dirs, sep) + ['\0']
      decreases len - pos
    {
      if k == |dirs| {
        assert false;
      }
      ghost var done, rest := buf[..pos], buf[pos..len];
      var partLen := StrLen(buf[..len], pos, dirs[k..]);
      assert buf[..len][pos..] == buf[pos..len];
      NextEntry(buf[..len], pos, dirs[k..]);
      assert dirs[k..][1..] == dirs[k + 1..];
      pos := pos + partLen;
      assert buf[..pos] == done + dirs[k];
      assert buf[pos + 1..len] == Argz(dirs[k + 1..]);
      ClosedSnoc(dirs, k, sep);
      EmptyArgz(dirs[k + 1..]);
      if pos + 1 < len {
        ghost var tail := buf[pos + 1..len];
        buf[pos] := sep;
        assert buf[pos + 1..len] == tail;
        assert buf[..pos + 1] == done + dirs[k] + [sep];
      } else {
        assert buf[..len] == done + dirs[k] + ['\0'];
      }
      pos := pos + 1;
      k := k + 1;
    }
    EmptyArgz(dirs[k..]);
  }

  lemma {:induction false} ClosedSnoc(dirs: seq<string>, k: nat, sep: char)
    requires k < |dirs|
    ensures Closed(dirs[..k + 1], sep) == Closed(dirs[..k], sep) + dirs[k] + [sep]
    ensures k + 1 == |dirs| ==> Joined(dirs, sep) == Closed(dirs[..k], sep) + dirs[k]
    decreases k
  {
    if k == 0 {
      assert dirs[..1][1..] == [] && dirs[..0] == [];
      assert Closed(dirs[..1], sep) == dirs[0] + [sep] + Closed(dirs[..1][1..], sep);
    } else {
      ClosedSnoc(dirs[1..], k - 1, sep);
      assert dirs[1..][..k] == dirs[..k + 1][1..];
      assert dirs[1..][..k - 1] == dirs[..k][1..];
      assert dirs[1..][k - 1] == dirs[k];
    }
  }

  /** `stpcpy` without the closing NUL: append `s` at `cp`. */
  method StpCpy(buf: array<char>, cp: nat, s: string) returns (end: nat)
    requires cp + |s| <= buf.Length
    modifies buf
    ensures end == cp + |s| && buf[..end] == old(buf[..cp]) + s
  {
    for i := 0 to |s|
      invariant buf[..cp + i] == old(buf[..cp]) + s[..i]
    {
      buf[cp + i] := s[i];
    }
    end := cp + |s|;
    assert s[..|s|] == s;
  }

  /** Append an optional piece. */
  method PutPiece(buf: array<char>, cp: nat, present: bool, sep: char, part: string) returns (end: nat)
    requires cp + |Piece(present, sep, part)| <= buf.Length
    modifies buf
    ensures end == cp + |Piece(present, sep, part)| && buf[..end] == old(buf[..cp]) + Piece(present, sep, part)
  {
    end := cp;
    if present {
      buf[end] := sep;
      assert buf[..end + 1] == old(buf[..cp]) + [sep];
      end := StpCpy(buf, end + 1, part);
      assert buf[..end] == old(buf[..cp]) + ([sep] + part);
    } else {
      assert old(buf[..cp]) + [] == old(buf[..cp]);
    }
  }

  method PutXpg(buf: array<char>, start: nat, mask: nat, p: Parts) returns (cp: nat)
    requires start <= buf.Length && |XpgOnto(buf[..start], mask, p)| <= buf.Length
    modifies buf
    ensures cp <= buf.Length && buf[..cp] == XpgOnto(old(buf[..start]), mask, p)
  {
    hide Has, Piece;
    cp := StpCpy(buf, start, p.language);
    cp := PutPiece(buf, cp, Has(mask, TERRITORY), '_', p.territory);
    cp := PutPiece(buf, cp, Has(mask, XPG_CODESET), '.', p.codeset);
    cp := PutPiece(buf, cp, Has(mask, XPG_NORM_CODESET), '.', p.normalized);
    cp := PutPiece(buf, cp, Has(mask, XPG_MODIFIER) || Has(mask, CEN_AUDIENCE),
                   if Has(mask, CEN_AUDIENCE) then '+' else '@', p.modifier);
  }

  method PutCen(buf: array<char>, start: nat, mask: nat, p: Parts) returns (cp: nat)
    requires start <= buf.Length && |CenOnto(buf[..start], mask, p)| <= buf.Length
    modifies buf
    ensures cp <= buf.Length && buf[..cp] == CenOnto(old(buf[..start]), mask, p)
  {
    hide Has, Piece;
    cp := PutPiece(buf, start, Has(mask, CEN_SPECIAL), '+', p.special);
    cp := PutPiece(buf, cp, Has(mask, CEN_SPONSOR) || Has(mask, CEN_REVISION), ',',
                   if Has(mask, CEN_SPONSOR) then p.sponsor else []);
    cp := PutPiece(buf, cp, Has(mask, CEN_REVISION), '_', p.revision);
  }

  /** The parts of the name, appended at `start`. */
  method PutStem(buf: array<char>, start: nat, mask: nat, p: Parts) returns (cp: nat)
    requires start + |Stem(mask, p)| <= buf.Length
    modifies buf
    ensures cp == start + |Stem(mask, p)| && buf[..cp] == old(buf[..start]) + Stem(mask, p)
  {
    hide XpgOnto, CenOnto, Stem;
    OntoPrefix(buf[..start], mask, p);
    CenGrows(XpgOnto(buf[..start], mask, p), mask, p);
    cp := PutXpg(buf, start, mask, p);
    cp := PutCen(buf, cp, mask, p);
  }

  lemma CenGrows(before: string, mask: nat, p: Parts)
    ensures |before| <= |CenOnto(before, mask, p)|
  {
    hide Has, Piece;
  }

  /** The first half of `_nl_make_l10nflist`: allocate the buffer and build the name in it, within its bounds. */
  method AbsFilename(argz: string, ghost dirs: seq<string>, mask: nat, p: Parts, filename: string)
    returns (buf: array<char>, end: nat)
    requires Names(dirs) && dirs != [] && argz == Argz(dirs)
    ensures fresh(buf) && buf.Length == Allocated(|argz|, mask, p, filename)
    ensures end < buf.Length && buf[..end] == FileName(dirs, mask, p, filename) && buf[end] == '\0'
  {
    hide Has;
    AllocationSuffices(dirs, mask, p, filename);
    ArgzLength(dirs, PATH_SEPARATOR);
    hide Allocated, Stem;
    buf := new char[Allocated(|argz|, mask, p, filename)];
    var cp := StpCpy(buf, 0, argz);
    assert buf[..cp] == argz;
    ArgzStringify(buf, |argz|, PATH_SEPARATOR, dirs);
    cp := |argz| - 1;
    assert buf[..cp] == Joined(dirs, PATH_SEPARATOR);
    ghost var s1 := Joined(dirs, PATH_SEPARATOR) + "/";
    buf[cp] := '/';
    cp := cp + 1;
    assert buf[..cp] == s1;
    cp := PutStem(buf, cp, mask, p);
    ghost var s2 := s1 + Stem(mask, p) + "/";
    buf[cp] := '/';
    assert buf[..cp + 1] == s2;
    cp := StpCpy(buf, cp + 1, filename);
    assert buf[..cp] == FileName(dirs, mask, p, filename);
    buf[cp] := '\0';
    end := cp;
  }
}

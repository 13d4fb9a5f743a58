/** Strings of the C library as far as the translation lookup uses them. */
module CStrings {

  /** `strcmp` on strings given without their closing NUL; characters compare as unsigned bytes. */
  function StrCmp(a: string, b: string): int {
    if a == [] && b == [] then 0
    else if a == [] then -1
    else if b == [] then 1
    else if a[0] != b[0] then a[0] as int - b[0] as int
    else StrCmp(a[1..], b[1..])
  }

  lemma {:induction false} StrCmpEqual(a: string, b: string)
    ensures StrCmp(a, b) == 0 <==> a == b
  {
    if a != [] && b != [] && a[0] == b[0] {
      StrCmpEqual(a[1..], b[1..]);
      assert a == [a[0]] + a[1..] && b == [b[0]] + b[1..];
    }
  }

  lemma {:induction false} StrCmpMirror(a: string, b: string)
    ensures StrCmp(a, b) < 0 <==> StrCmp(b, a) > 0
  {
    if a != [] && b != [] && a[0] == b[0] {
      StrCmpMirror(a[1..], b[1..]);
    }
  }

  lemma {:induction false} StrCmpTransitive(a: string, b: string, c: string)
    requires StrCmp(a, b) < 0 && StrCmp(b, c) < 0
    ensures StrCmp(a, c) < 0
  {
    if a != [] && b != [] && c != [] && a[0] == b[0] == c[0] {
      StrCmpTransitive(a[1..], b[1..], c[1..]);
    }
  }

  /** Behind a common beginning the first character that differs decides, and nothing is less than anything. */
  lemma {:induction false} FirstDifference(p: string, x: string, y: string)
    ensures x != [] && y != [] && x[0] != y[0] ==> (StrCmp(p + x, p + y) < 0 <==> x[0] < y[0])
    ensures x != [] ==> StrCmp(p, p + x) < 0
  {
    if p == [] {
      assert p + x == x && p + y == y;
    } else {
      assert (p + x)[1..] == p[1..] + x && (p + y)[1..] == p[1..] + y;
      FirstDifference(p[1..], x, y);
    }
  }

  /** The C string that begins where `data` begins: up to the first NUL. */
  function UpToNul(data: string): string {
    if data == [] || data[0] == '\0' then [] else [data[0]] + UpToNul(data[1..])
  }
}

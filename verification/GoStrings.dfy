/** The string operations of Go's `strings` package that the metadata code uses,
    written for one-character separators, with the laws that connect them. */
module GoStrings {

  // ---- Prefixes and suffixes ------------------------------------------------

  predicate HasPrefix(s: string, p: string) {
    p <= s
  }

  predicate HasSuffix(s: string, p: string) {
    |p| <= |s| && s[|s| - |p|..] == p
  }

  function TrimPrefix(s: string, p: string): string {
    if HasPrefix(s, p) then s[|p|..] else s
  }

  function TrimSuffix(s: string, p: string): string {
    if HasSuffix(s, p) then s[..|s| - |p|] else s
  }

  // ---- Trimming -------------------------------------------------------------

  /** `unicode.IsSpace`. */
  predicate IsSpace(c: char) {
    || '\t' <= c <= '\r' || c == ' ' || c == '\U{0085}' || c == '\U{00A0}' || c == '\U{1680}'
    || '\U{2000}' <= c <= '\U{200A}' || c == '\U{2028}' || c == '\U{2029}' || c == '\U{202F}'
    || c == '\U{205F}' || c == '\U{3000}'
  }

  /** What a trim cuts away: the slash, Unicode white space, or only the space character. */
  datatype Cutset = Slashes | Blanks | Spaces

  predicate Cuts(cut: Cutset, c: char) {
    match cut
    case Slashes => c == '/'
    case Blanks => IsSpace(c)
    case Spaces => c == ' '
  }

  function TrimLeft(s: string, cut: Cutset): (r: string)
    ensures |r| <= |s|
    ensures |r| > 0 ==> !Cuts(cut, r[0])
  {
    if s != "" && Cuts(cut, s[0]) then TrimLeft(s[1..], cut) else s
  }

  function TrimRight(s: string, cut: Cutset): (r: string)
    ensures |r| <= |s|
    ensures |r| > 0 ==> !Cuts(cut, r[|r| - 1])
  {
    if s != "" && Cuts(cut, s[|s| - 1]) then TrimRight(s[..|s| - 1], cut) else s
  }

  function Trim(s: string, cut: Cutset): (r: string)
    ensures |r| <= |s|
  {
    TrimRight(TrimLeft(s, cut), cut)
  }

  function TrimSpace(s: string): string {
    Trim(s, Blanks)
  }

  /** `strings.Trim(s, "/")`. */
  function TrimSlashes(s: string): string {
    Trim(s, Slashes)
  }

  /** Trimming is the identity exactly on strings that neither start nor end with a cut character. */
  lemma TrimIdentity(s: string, cut: Cutset)
    ensures Trim(s, cut) == s <==> (s == "" || (!Cuts(cut, s[0]) && !Cuts(cut, s[|s| - 1])))
  {
    var l := TrimLeft(s, cut);
    var r := TrimRight(l, cut);
    if s != "" && r == s {
      assert l == s;
    }
  }

  lemma TrimSpaceIdentity(s: string)
    ensures TrimSpace(s) == s <==> (s == "" || (!IsSpace(s[0]) && !IsSpace(s[|s| - 1])))
  {
    TrimIdentity(s, Blanks);
  }

  // ---- Split and Join on '/' ------------------------------------------------

  predicate SlashFree(s: string) {
    '/' !in s
  }

  ghost predicate AllSlashFree(parts: seq<string>) {
    forall i :: 0 <= i < |parts| ==> SlashFree(parts[i])
  }

  /** `strings.Split(s, "/")`. */
  function Split(s: string): (parts: seq<string>)
    ensures |parts| >= 1
    ensures AllSlashFree(parts)
  {
    if s == "" then [""]
    else
      var rest := Split(s[1..]);
      if s[0] == '/' then [""] + rest else [[s[0]] + rest[0]] + rest[1..]
  }

  /** `strings.Join(parts, "/")`. */
  function Join(parts: seq<string>): string {
    if |parts| == 0 then ""
    else if |parts| == 1 then parts[0]
    else parts[0] + "/" + Join(parts[1..])
  }

  lemma {:induction false} JoinSplit(s: string)
    ensures Join(Split(s)) == s
  {
    if s != "" {
      var rest := Split(s[1..]);
      JoinSplit(s[1..]);
      if s[0] == '/' {
        assert Split(s)[1..] == rest;
      } else {
        assert Split(s)[1..] == rest[1..];
      }
      assert s == [s[0]] + s[1..];
    }
  }

  lemma {:induction false} SplitSlashFree(s: string)
    requires SlashFree(s)
    ensures Split(s) == [s]
  {
    if s != "" {
      assert SlashFree(s[1..]);
      SplitSlashFree(s[1..]);
      assert s == [s[0]] + s[1..];
    }
  }

  lemma SplitCons(c: char, s: string)
    ensures Split([c] + s) == if c == '/' then [""] + Split(s) else [[c] + Split(s)[0]] + Split(s)[1..]
  {
    assert ([c] + s)[1..] == s;
  }

  lemma FirstExtended(c: char, xs: seq<string>, ys: seq<string>)
    requires |xs| >= 1
    ensures [[c] + (xs + ys)[0]] + (xs + ys)[1..] == [[c] + xs[0]] + xs[1..] + ys
  {
  }

  lemma {:induction false} SplitConcat(a: string, b: string)
    ensures Split(a + "/" + b) == Split(a) + Split(b)
  {
    hide Split;
    if a == "" {
      SplitCons('/', b);
      SplitNothing();
      assert a + "/" + b == ['/'] + b;
    } else {
      var c, rest := a[0], a[1..];
      assert a == [c] + rest && a + "/" + b == [c] + (rest + "/" + b);
      SplitCons(c, rest);
      SplitCons(c, rest + "/" + b);
      SplitConcat(rest, b);
      if c == '/' {
        assert [""] + (Split(rest) + Split(b)) == [""] + Split(rest) + Split(b);
      } else {
        FirstExtended(c, Split(rest), Split(b));
      }
    }
  }

  lemma SplitNothing()
    ensures Split("") == [""]
  {
  }

  lemma {:induction false} SplitJoin(parts: seq<string>)
    requires |parts| >= 1 && AllSlashFree(parts)
    ensures Split(Join(parts)) == parts
  {
    SplitSlashFree(parts[0]);
    if |parts| > 1 {
      SplitJoin(parts[1..]);
      SplitConcat(parts[0], Join(parts[1..]));
    }
  }

  lemma {:induction false} JoinConcat(a: seq<string>, b: seq<string>)
    requires |a| >= 1 && |b| >= 1
    ensures Join(a + b) == Join(a) + "/" + Join(b)
  {
    if |a| == 1 {
      assert (a + b)[1..] == b;
    } else {
      JoinConcat(a[1..], b);
      assert (a + b)[1..] == a[1..] + b;
      assert Join(a + b) == a[0] + "/" + (Join(a[1..]) + "/" + Join(b));
    }
  }

  lemma JoinSnoc(a: seq<string>, x: string)
    requires |a| >= 1
    ensures Join(a + [x]) == Join(a) + "/" + x
  {
    JoinConcat(a, [x]);
  }

  ghost predicate ProperPrefix<T>(a: seq<T>, b: seq<T>) {
    |a| < |b| && a == b[..|a|]
  }

  /** A joined path followed by a slash is a string prefix of another exactly when
      its segments are a proper prefix of the other's: the separator keeps "7" apart from "71". */
  lemma JoinPrefix(a: seq<string>, b: seq<string>)
    requires |a| >= 1 && |b| >= 1 && AllSlashFree(a) && AllSlashFree(b)
    ensures HasPrefix(Join(b), Join(a) + "/") <==> ProperPrefix(a, b)
  {
    if HasPrefix(Join(b), Join(a) + "/") {
      var t := Join(b)[|Join(a)| + 1..];
      assert Join(b) == Join(a) + "/" + t;
      SplitConcat(Join(a), t);
      SplitJoin(a);
      SplitJoin(b);
    }
    if ProperPrefix(a, b) {
      assert b == a + b[|a|..];
      JoinConcat(a, b[|a|..]);
    }
  }

  /** The directory-prefix test on strings is the prefix test on segments. */
  lemma SplitPrefix(d: string, s: string)
    ensures HasPrefix(s, d + "/") <==> ProperPrefix(Split(d), Split(s))
  {
    JoinSplit(d);
    JoinSplit(s);
    JoinPrefix(Split(d), Split(s));
  }

  // ---- Decimal rendering ----------------------------------------------------

  function Digit(d: nat): (c: char)
    requires d < 10
    ensures '0' <= c <= '9'
  {
    ['0', '1', '2', '3', '4', '5', '6', '7', '8', '9'][d]
  }

  /** `fmt.Sprintf("%d", n)` for an unsigned n. */
  function Decimal(n: nat): (s: string)
    ensures s != ""
    ensures forall i :: 0 <= i < |s| ==> '0' <= s[i] <= '9'
  {
    if n < 10 then [Digit(n)] else Decimal(n / 10) + [Digit(n % 10)]
  }

  function DecimalInt(n: int): string {
    if n < 0 then "-" + Decimal(-n) else Decimal(n)
  }

  lemma {:induction false} DecimalInjective(m: nat, n: nat)
    requires Decimal(m) == Decimal(n)
    ensures m == n
  {
    var s := Decimal(m);
    if m < 10 && n < 10 {
      assert s[0] == Digit(m) == Digit(n);
    } else if m >= 10 && n >= 10 {
      assert s[|s| - 1] == Digit(m % 10) == Digit(n % 10);
      assert s[..|s| - 1] == Decimal(m / 10) == Decimal(n / 10);
      DecimalInjective(m / 10, n / 10);
    }
  }

  // ---- Byte order -----------------------------------------------------------

  /** Go's `a <= b` on strings; UTF-8 keeps the order of code points. */
  predicate StrLe(a: string, b: string) {
    if a == "" then true
    else if b == "" then false
    else if a[0] != b[0] then a[0] < b[0]
    else StrLe(a[1..], b[1..])
  }

  /** One string is the start of the other, or the first place where they differ decides. */
  ghost predicate IsAtMost(a: string, b: string) {
    a <= b || exists k :: 0 <= k < |a| && k < |b| && a[..k] == b[..k] && a[k] < b[k]
  }

  lemma {:induction false} StrLeIsAtMost(a: string, b: string)
    ensures StrLe(a, b) <==> IsAtMost(a, b)
  {
    if a != "" && b != "" {
      if a[0] == b[0] {
        StrLeIsAtMost(a[1..], b[1..]);
        SameFirst(a, b);
      } else {
        FirstDecides(a, b);
      }
    }
  }

  lemma FirstDecides(a: string, b: string)
    requires a != "" && b != "" && a[0] != b[0]
    ensures IsAtMost(a, b) <==> a[0] < b[0]
  {
    assert a[..0] == b[..0];
    assert forall k :: 0 < k <= |a| ==> a[..k][0] == a[0];
    assert forall k :: 0 < k <= |b| ==> b[..k][0] == b[0];
  }

  lemma SameFirst(a: string, b: string)
    requires a != "" && b != "" && a[0] == b[0]
    ensures IsAtMost(a, b) <==> IsAtMost(a[1..], b[1..])
  {
    var c, d := a[1..], b[1..];
    assert a == [a[0]] + c && b == [a[0]] + d;
    if j :| 0 <= j < |c| && j < |d| && c[..j] == d[..j] && c[j] < d[j] {
      assert a[..j + 1] == [a[0]] + c[..j] && b[..j + 1] == [a[0]] + d[..j];
    }
    if k :| 0 <= k < |a| && k < |b| && a[..k] == b[..k] && a[k] < b[k] {
      assert c[..k - 1] == a[..k][1..] && d[..k - 1] == b[..k][1..];
    }
  }

  lemma {:induction false} StrLeTotal(a: string, b: string)
    ensures StrLe(a, b) || StrLe(b, a)
  {
    if a != "" && b != "" {
      StrLeTotal(a[1..], b[1..]);
    }
  }

  lemma {:induction false} StrLeAntisymmetric(a: string, b: string)
    requires StrLe(a, b) && StrLe(b, a)
    ensures a == b
  {
    if a != "" && b != "" {
      StrLeAntisymmetric(a[1..], b[1..]);
      assert a == [a[0]] + a[1..];
      assert b == [b[0]] + b[1..];
    }
  }

  lemma {:induction false} StrLeTransitive(a: string, b: string, c: string)
    requires StrLe(a, b) && StrLe(b, c)
    ensures StrLe(a, c)
  {
    if a != "" && b != "" && c != "" && a[0] == b[0] == c[0] {
      StrLeTransitive(a[1..], b[1..], c[1..]);
    }
  }
}

/** The pieces of Python's standard library that the upload validator leans on,
    written out as pure functions: `os.path.splitext` (POSIX flavour),
    `str.lower` / `bytes.lower` on ASCII, the bytes `in` operator, building a
    dict from key/value pairs and inverting it with `{v: k for k, v in ...}`,
    `str.join` and `str(int)`. */
module PyLib {

  /** One byte of a `bytes` object. */
  newtype Byte = x: int | 0 <= x < 256

  // ---------------------------------------------------------------------
  // os.path.splitext

  /** `s.rfind(c)`: the index of the last occurrence of `c`, or -1. */
  function LastIndexOf(s: string, c: char): (r: int)
    ensures -1 <= r < |s|
    ensures r >= 0 ==> s[r] == c
    ensures forall i :: r < i < |s| ==> s[i] != c
  {
    LastIndexBefore(s, c, |s|)
  }

  /** The index of the last occurrence of `c` among the first `n` characters, or -1. */
  function LastIndexBefore(s: string, c: char, n: nat): (r: int)
    requires n <= |s|
    ensures -1 <= r < n
    ensures r >= 0 ==> s[r] == c
    ensures forall i :: r < i < n ==> s[i] != c
  {
    if n == 0 then -1
    else if s[n - 1] == c then n - 1
    else LastIndexBefore(s, c, n - 1)
  }

  /** Every character of `p` from `lo` up to (not including) `hi` is a '.'. */
  predicate AllDotsBetween(p: string, lo: int, hi: int)
    requires 0 <= lo && hi <= |p|
  {
    forall k :: lo <= k < hi ==> p[k] == '.'
  }

  /** `os.path.splitext(p)` with separator '/' and extension separator '.':
      the extension runs from the last '.' of the final path component to the
      end, unless everything in that component before the '.' is a dot, in
      which case there is no extension (so ".pdf" and "..pdf" have none). */
  function SplitExt(p: string): (r: (string, string))
    ensures r.0 + r.1 == p
    ensures r.1 == [] || r.1[0] == '.'
    ensures forall i :: 0 < i < |r.1| ==> r.1[i] != '.' && r.1[i] != '/'
  {
    var sepIndex := LastIndexOf(p, '/');
    var dotIndex := LastIndexOf(p, '.');
    if dotIndex > sepIndex && !AllDotsBetween(p, sepIndex + 1, dotIndex) then
      (p[..dotIndex], p[dotIndex..])
    else
      (p, [])
  }

  /** A plain file name `stem + ext`, where the stem starts with something
      other than '.', neither part holds a '/', and `ext` is a '.' followed by
      no further '.', splits into exactly that stem and extension. */
  lemma SplitExtOfPlainName(stem: string, ext: string)
    requires |stem| > 0 && stem[0] != '.'
    requires forall i :: 0 <= i < |stem| ==> stem[i] != '/'
    requires |ext| > 0 && ext[0] == '.'
    requires forall i :: 0 < i < |ext| ==> ext[i] != '.' && ext[i] != '/'
    ensures SplitExt(stem + ext) == (stem, ext)
  {
    var p := stem + ext;
    var sepIndex := LastIndexOf(p, '/');
    var dotIndex := LastIndexOf(p, '.');
    forall i | 0 <= i < |p| ensures p[i] != '/' {
      if i < |stem| { assert p[i] == stem[i]; } else { assert p[i] == ext[i - |stem|]; }
    }
    assert p[|stem|] == '.';
    forall i | |stem| < i < |p| ensures p[i] != '.' {
      assert p[i] == ext[i - |stem|];
    }
    assert sepIndex == -1;
    assert dotIndex == |stem|;
    assert p[0..dotIndex][0] == stem[0];
    assert p[..dotIndex] == stem && p[dotIndex..] == ext;
  }

  /** A name with no '.' has no extension. */
  lemma SplitExtWithoutDot(p: string)
    requires '.' !in p
    ensures SplitExt(p) == (p, "")
  {
  }

  /** No '/' at position `j` or after it: `j` lies in the final path component. */
  predicate InLastComponent(p: string, j: int) {
    0 <= j && forall k :: j <= k < |p| ==> p[k] != '/'
  }

  /** Reference definition: the path has an extension when its final component
      holds a '.' preceded, within that component, by some character that is
      not a '.'. */
  ghost predicate HasExtension(p: string) {
    exists i, j :: ExtensionAt(p, i, j)
  }

  /** The '.' at `i` starts an extension, as witnessed by the non-dot at `j`. */
  ghost predicate ExtensionAt(p: string, i: int, j: int) {
    0 <= j < i < |p| && p[i] == '.' && p[j] != '.' && InLastComponent(p, j)
  }

  lemma SplitExtFindsExactlyExtensions(p: string)
    ensures SplitExt(p).1 != [] <==> HasExtension(p)
  {
    if SplitExt(p).1 != [] {
      SplitExtOnlyExtensions(p);
    }
    if HasExtension(p) {
      var i, j :| ExtensionAt(p, i, j);
      ExtensionsAreSplit(p, i, j);
    }
  }

  lemma SplitExtOnlyExtensions(p: string)
    requires SplitExt(p).1 != []
    ensures HasExtension(p)
  {
    var sepIndex := LastIndexOf(p, '/');
    var dotIndex := LastIndexOf(p, '.');
    assert dotIndex > sepIndex && !AllDotsBetween(p, sepIndex + 1, dotIndex);
    var j :| sepIndex + 1 <= j < dotIndex && p[j] != '.';
    HasExtensionWitness(p, dotIndex, j, sepIndex);
  }

  lemma HasExtensionWitness(p: string, i: int, j: int, sepIndex: int)
    requires 0 <= j < i < |p| && p[i] == '.' && p[j] != '.'
    requires -1 <= sepIndex < j && forall k :: sepIndex < k < |p| ==> p[k] != '/'
    ensures HasExtension(p)
  {
    assert ExtensionAt(p, i, j);
  }

  lemma ExtensionsAreSplit(p: string, i: int, j: int)
    requires ExtensionAt(p, i, j)
    ensures SplitExt(p).1 != []
  {
  }

  // ---------------------------------------------------------------------
  // str.lower and bytes.lower (ASCII)

  function LowerChar(c: char): char {
    if 'A' <= c <= 'Z' then (c as int + 32) as char else c
  }

  /** `name.lower()`, restricted to the ASCII letters. */
  function StrLower(s: string): string {
    seq(|s|, i requires 0 <= i < |s| => LowerChar(s[i]))
  }

  /** Lowering leaves no capital, keeps every other character and moves each
      capital 32 code points up to its small letter. */
  lemma StrLowerLowers(s: string)
    ensures |StrLower(s)| == |s|
    ensures forall i :: 0 <= i < |s| ==> !('A' <= StrLower(s)[i] <= 'Z')
    ensures forall i :: 0 <= i < |s| && !('A' <= s[i] <= 'Z') ==> StrLower(s)[i] == s[i]
    ensures forall i :: 0 <= i < |s| && 'A' <= s[i] <= 'Z' ==> StrLower(s)[i] as int == s[i] as int + 32
  {
  }

  function LowerByte(b: Byte): Byte {
    if 65 <= b <= 90 then b + 32 else b
  }

  /** `content.lower()` on bytes: only the 26 ASCII capitals change. */
  function BytesLower(s: seq<Byte>): seq<Byte> {
    seq(|s|, i requires 0 <= i < |s| => LowerByte(s[i]))
  }

  /** The same for bytes: no byte 65..90 is left, the others are kept, and
      each capital becomes its small letter. */
  lemma BytesLowerLowers(s: seq<Byte>)
    ensures |BytesLower(s)| == |s|
    ensures forall i :: 0 <= i < |s| ==> !(65 <= BytesLower(s)[i] <= 90)
    ensures forall i :: 0 <= i < |s| && !(65 <= s[i] <= 90) ==> BytesLower(s)[i] == s[i]
    ensures forall i :: 0 <= i < |s| && 65 <= s[i] <= 90 ==> BytesLower(s)[i] == s[i] + 32
  {
  }

  lemma BytesLowerSlices(s: seq<Byte>, i: int, j: int)
    requires 0 <= i <= j <= |s|
    ensures BytesLower(s)[i..j] == BytesLower(s[i..j])
  {
  }

  /** A `b'...'` literal written with ASCII characters. */
  function AsciiBytes(s: string): seq<Byte>
    requires forall i :: 0 <= i < |s| ==> s[i] as int < 128
  {
    seq(|s|, i requires 0 <= i < |s| => s[i] as int as Byte)
  }

  // ---------------------------------------------------------------------
  // the bytes `in` operator

  /** Reference definition: `p` is a contiguous run of `s`. */
  ghost predicate Occurs(p: seq<Byte>, s: seq<Byte>) {
    exists i :: OccursAt(p, s, i)
  }

  ghost predicate OccursAt(p: seq<Byte>, s: seq<Byte>, i: int) {
    0 <= i <= |s| - |p| && s[i..i + |p|] == p
  }

  /** `p in s` for bytes, as a left-to-right scan. */
  function Contains(s: seq<Byte>, p: seq<Byte>): (r: bool)
    ensures r <==> Occurs(p, s)
    decreases |s|
  {
    if |p| > |s| then false
    else if s[..|p|] == p then assert OccursAt(p, s, 0); true
    else
      var r := Contains(s[1..], p);
      assert Occurs(p, s[1..]) ==> Occurs(p, s) by {
        if Occurs(p, s[1..]) {
          var i :| OccursAt(p, s[1..], i);
          assert s[i + 1..i + 1 + |p|] == s[1..][i..i + |p|];
          assert OccursAt(p, s, i + 1);
        }
      }
      assert Occurs(p, s) ==> Occurs(p, s[1..]) by {
        if Occurs(p, s) {
          var i :| OccursAt(p, s, i);
          assert i != 0;
          assert s[1..][i - 1..i - 1 + |p|] == s[i..i + |p|];
          assert OccursAt(p, s[1..], i - 1);
        }
      }
      r
  }

  // ---------------------------------------------------------------------
  // dicts built from key/value pairs

  /** The dict a literal `{k0: v0, k1: v1, ...}` (or a comprehension over those
      pairs) builds: entries are inserted in order, a later key overwriting an
      earlier one. */
  function DictOf(pairs: seq<(string, string)>): (m: map<string, string>)
    ensures m.Keys == set i | 0 <= i < |pairs| :: pairs[i].0
  {
    if pairs == [] then map[]
    else
      var last := pairs[|pairs| - 1];
      var front := pairs[..|pairs| - 1];
      var m := DictOf(front)[last.0 := last.1];
      assert m.Keys == (set i | 0 <= i < |front| :: front[i].0) + {last.0};
      m
  }

  /** The pairs with key and value swapped, in the same order. */
  function Swapped(pairs: seq<(string, string)>): seq<(string, string)> {
    seq(|pairs|, i requires 0 <= i < |pairs| => (pairs[i].1, pairs[i].0))
  }

  /** `d.values()` for the dict `DictOf(pairs)` when no key repeats. */
  function ValuesInOrder(pairs: seq<(string, string)>): (r: seq<string>)
    ensures (set v | v in r) == (set i | 0 <= i < |pairs| :: pairs[i].1)
  {
    var r := seq(|pairs|, i requires 0 <= i < |pairs| => pairs[i].1);
    assert forall i :: 0 <= i < |pairs| ==> r[i] == pairs[i].1;
    r
  }

  /** `{v: k for k, v in d.items()}` for the dict `DictOf(pairs)`. */
  function InvertedDictOf(pairs: seq<(string, string)>): map<string, string> {
    DictOf(Swapped(pairs))
  }

  /** No key and no value occurs twice. */
  predicate OneToOne(pairs: seq<(string, string)>) {
    forall i, j :: 0 <= i < j < |pairs| ==> pairs[i].0 != pairs[j].0 && pairs[i].1 != pairs[j].1
  }

  lemma {:induction false} DictOfLookup(pairs: seq<(string, string)>, i: int)
    requires forall a, b :: 0 <= a < b < |pairs| ==> pairs[a].0 != pairs[b].0
    requires 0 <= i < |pairs|
    ensures pairs[i].0 in DictOf(pairs) && DictOf(pairs)[pairs[i].0] == pairs[i].1
  {
    if i < |pairs| - 1 {
      var front := pairs[..|pairs| - 1];
      DictOfLookup(front, i);
      assert front[i] == pairs[i];
    }
  }

  lemma DictOfValues(pairs: seq<(string, string)>)
    requires forall a, b :: 0 <= a < b < |pairs| ==> pairs[a].0 != pairs[b].0
    ensures DictOf(pairs).Values == set i | 0 <= i < |pairs| :: pairs[i].1
  {
    var m := DictOf(pairs);
    var vs := set i | 0 <= i < |pairs| :: pairs[i].1;
    forall v | v in m.Values ensures v in vs {
      var k :| k in m.Keys && m[k] == v;
      DictOfValue(pairs, k);
    }
    forall v | v in vs ensures v in m.Values {
      var i :| 0 <= i < |pairs| && pairs[i].1 == v;
      DictOfLookup(pairs, i);
    }
  }

  lemma DictOfValue(pairs: seq<(string, string)>, k: string)
    requires forall a, b :: 0 <= a < b < |pairs| ==> pairs[a].0 != pairs[b].0
    requires k in DictOf(pairs)
    ensures exists i :: 0 <= i < |pairs| && pairs[i] == (k, DictOf(pairs)[k])
  {
  }

  /** When no key and no value repeats, the inverted dict is the inverse of the
      dict: every key comes back from its value, the inverted dict's keys are
      exactly the dict's values, and what it returns is always a key. */
  lemma InvertedDictInverts(pairs: seq<(string, string)>)
    requires OneToOne(pairs)
    ensures forall k :: k in DictOf(pairs) ==>
      DictOf(pairs)[k] in InvertedDictOf(pairs) && InvertedDictOf(pairs)[DictOf(pairs)[k]] == k
    ensures InvertedDictOf(pairs).Keys == DictOf(pairs).Values
    ensures forall v :: v in InvertedDictOf(pairs) ==>
      InvertedDictOf(pairs)[v] in DictOf(pairs) && DictOf(pairs)[InvertedDictOf(pairs)[v]] == v
  {
    var m, inv := DictOf(pairs), InvertedDictOf(pairs);
    forall k | k in m ensures m[k] in inv && inv[m[k]] == k {
      var i :| 0 <= i < |pairs| && pairs[i].0 == k;
      LookupBothWays(pairs, i);
    }
    DictOfValues(pairs);
    forall v | v in inv ensures inv[v] in m && m[inv[v]] == v {
      var i :| 0 <= i < |Swapped(pairs)| && Swapped(pairs)[i].0 == v;
      LookupBothWays(pairs, i);
    }
  }

  /** The i-th pair is found from its key in the dict and from its value in
      the inverted dict. */
  lemma LookupBothWays(pairs: seq<(string, string)>, i: int)
    requires OneToOne(pairs)
    requires 0 <= i < |pairs|
    ensures pairs[i].0 in DictOf(pairs) && DictOf(pairs)[pairs[i].0] == pairs[i].1
    ensures pairs[i].1 in InvertedDictOf(pairs) && InvertedDictOf(pairs)[pairs[i].1] == pairs[i].0
  {
    DictOfLookup(pairs, i);
    DictOfLookup(Swapped(pairs), i);
  }

  // ---------------------------------------------------------------------
  // str.join and str(int)

  /** `sep.join(parts)`. */
  function Join(sep: string, parts: seq<string>): (r: string)
    ensures |parts| > 0 ==> parts[0] <= r
    ensures |parts| > 0 ==> |r| >= |parts[0]| + (|parts| - 1) * |sep|
  {
    if |parts| == 0 then ""
    else if |parts| == 1 then parts[0]
    else Join(sep, parts[..|parts| - 1]) + sep + parts[|parts| - 1]
  }

  /** Joining two non-empty lists is joining each and putting the separator
      between them. */
  lemma {:induction false} JoinConcat(sep: string, a: seq<string>, b: seq<string>)
    requires |a| > 0 && |b| > 0
    ensures Join(sep, a + b) == Join(sep, a) + sep + Join(sep, b)
    decreases |b|
  {
    if |b| == 1 {
      assert (a + b)[..|a + b| - 1] == a;
    } else {
      var b' := b[..|b| - 1];
      assert (a + b)[..|a + b| - 1] == a + b';
      JoinConcat(sep, a, b');
    }
  }

  function DigitChar(d: nat): char
    requires d < 10
  {
    ('0' as int + d) as char
  }

  /** `str(n)` for a non-negative integer. */
  function NatToString(n: nat): (r: string)
    ensures |r| > 0
    ensures forall i :: 0 <= i < |r| ==> '0' <= r[i] <= '9'
    ensures r[0] == '0' ==> n == 0
  {
    if n < 10 then [DigitChar(n)] else NatToString(n / 10) + [DigitChar(n % 10)]
  }

  /** `int(s)` for a string of decimal digits. */
  function DigitsValue(s: string): nat
    requires forall i :: 0 <= i < |s| ==> '0' <= s[i] <= '9'
  {
    if |s| == 0 then 0 else DigitsValue(s[..|s| - 1]) * 10 + (s[|s| - 1] as int - '0' as int)
  }

  /** `int(str(n)) == n`. */
  lemma {:induction false} NatToStringRoundTrip(n: nat)
    ensures DigitsValue(NatToString(n)) == n
  {
    if n >= 10 {
      var r := NatToString(n);
      assert r[..|r| - 1] == NatToString(n / 10);
      NatToStringRoundTrip(n / 10);
    }
  }
}

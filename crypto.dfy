/** Question fingerprinting: normalise the stem and the options, build the
    combined string, hash it, and render the digest as lowercase hex. The
    digest itself (UTF-8 encoding followed by SHA-1, FIPS 180-4) is a
    parameter `sha1`: this model says nothing about its internals. */
module Crypto {
  import opened Types

  // ---------------------------------------------------------------------
  // String normalisation: String.prototype.trim and toLowerCase
  // ---------------------------------------------------------------------

  /** The characters String.prototype.trim strips: ECMAScript WhiteSpace
      and LineTerminator code points. */
  predicate IsSpace(c: char)
  {
    c == '\t' || c == '\n' || c == '\U{000B}' || c == '\U{000C}' || c == '\r' || c == ' ' ||
    c == '\U{00A0}' || c == '\U{1680}' || ('\U{2000}' <= c <= '\U{200A}') ||
    c == '\U{2028}' || c == '\U{2029}' || c == '\U{202F}' || c == '\U{205F}' ||
    c == '\U{3000}' || c == '\U{FEFF}'
  }

  predicate AllSpace(s: string)
  {
    forall i :: 0 <= i < |s| ==> IsSpace(s[i])
  }

  function TrimStart(s: string): (r: string)
    ensures |r| <= |s| && r == s[|s| - |r|..]
    ensures r == [] || !IsSpace(r[0])
    ensures AllSpace(s[..|s| - |r|])
  {
    if s == [] || !IsSpace(s[0]) then s
    else
      assert AllSpace(s[..1]);
      var r := TrimStart(s[1..]);
      SpacePrefix(s, r);
      r
  }

  /** A leading space followed by a trimmed tail is still a trimmed tail. */
  lemma SpacePrefix(s: string, r: string)
    requires s != [] && AllSpace(s[..1]) && |r| < |s|
    requires r == s[1..][|s| - 1 - |r|..] && AllSpace(s[1..][..|s| - 1 - |r|])
    ensures r == s[|s| - |r|..] && AllSpace(s[..|s| - |r|])
  {
    assert s[..|s| - |r|] == s[..1] + s[1..][..|s| - 1 - |r|];
    AllSpaceConcat(s[..1], s[1..][..|s| - 1 - |r|]);
  }

  function TrimEnd(s: string): (r: string)
    ensures |r| <= |s| && r == s[..|r|]
    ensures r == [] || !IsSpace(r[|r| - 1])
    ensures AllSpace(s[|r|..])
  {
    if s == [] || !IsSpace(s[|s| - 1]) then s
    else
      var r := TrimEnd(s[..|s| - 1]);
      assert s[|r|..] == s[..|s| - 1][|r|..] + [s[|s| - 1]];
      AllSpaceConcat(s[..|s| - 1][|r|..], [s[|s| - 1]]);
      r
  }

  lemma AllSpaceSlice(s: string, i: nat, j: nat)
    requires AllSpace(s) && i <= j <= |s|
    ensures AllSpace(s[i..j])
  {
    forall k | 0 <= k < j - i ensures IsSpace(s[i..j][k]) { assert s[i..j][k] == s[i + k]; }
  }

  lemma AllSpaceConcat(a: string, b: string)
    requires AllSpace(a) && AllSpace(b)
    ensures AllSpace(a + b)
  {
    forall i | 0 <= i < |a + b| ensures IsSpace((a + b)[i]) {
      if i < |a| { assert (a + b)[i] == a[i]; } else { assert (a + b)[i] == b[i - |a|]; }
    }
  }

  function Trim(s: string): string
  {
    TrimEnd(TrimStart(s))
  }

  /** Lower-casing of one character, restricted to ASCII letters. */
  function LowerChar(c: char): (d: char)
    ensures 'A' <= c <= 'Z' ==> 'a' <= d <= 'z' && d as int == c as int + 32
    ensures !('A' <= c <= 'Z') ==> d == c
    ensures IsSpace(d) <==> IsSpace(c)
    ensures !('A' <= d <= 'Z')
  {
    if 'A' <= c <= 'Z' then (c as int - 'A' as int + 'a' as int) as char else c
  }

  function ToLower(s: string): (r: string)
    ensures |r| == |s|
    ensures forall i :: 0 <= i < |s| ==> r[i] == LowerChar(s[i])
  {
    if s == [] then [] else [LowerChar(s[0])] + ToLower(s[1..])
  }

  /** `s.trim().toLowerCase()` */
  function Normalize(s: string): string
  {
    ToLower(Trim(s))
  }

  // ---------------------------------------------------------------------
  // Ordering options by id and the stable sort on a copy
  // ---------------------------------------------------------------------

  /** The order in which option ids are compared: lexicographic on code points. */
  predicate IdLeq(a: string, b: string)
  {
    a == [] || (b != [] && (a[0] < b[0] || (a[0] == b[0] && IdLeq(a[1..], b[1..]))))
  }

  lemma {:induction false} IdLeqTotal(a: string, b: string)
    ensures IdLeq(a, b) || IdLeq(b, a)
  {
    if a != [] && b != [] && a[0] == b[0] {
      IdLeqTotal(a[1..], b[1..]);
    }
  }

  lemma {:induction false} IdLeqAntisymmetric(a: string, b: string)
    requires IdLeq(a, b) && IdLeq(b, a)
    ensures a == b
  {
    if a != [] && b != [] {
      IdLeqAntisymmetric(a[1..], b[1..]);
      assert a == [a[0]] + a[1..] && b == [b[0]] + b[1..];
    }
  }

  lemma {:induction false} IdLeqTransitive(a: string, b: string, c: string)
    requires IdLeq(a, b) && IdLeq(b, c)
    ensures IdLeq(a, c)
  {
    if a != [] && b != [] && c != [] && a[0] == b[0] && b[0] == c[0] {
      IdLeqTransitive(a[1..], b[1..], c[1..]);
    }
  }

  predicate SortedById(s: seq<OptionEntry>)
  {
    forall i, j :: 0 <= i < j < |s| ==> IdLeq(s[i].id, s[j].id)
  }

  /** The options of `s` whose id is `k`, in the order of `s`. */
  function WithId(s: seq<OptionEntry>, k: string): seq<OptionEntry>
  {
    if s == [] then [] else (if s[0].id == k then [s[0]] else []) + WithId(s[1..], k)
  }

  /** Inserts `x` in front of the first element whose id is not smaller, so
      that it stays ahead of the options with an equal id. */
  function Insert(x: OptionEntry, s: seq<OptionEntry>): seq<OptionEntry>
  {
    if s == [] || IdLeq(x.id, s[0].id) then [x] + s else [s[0]] + Insert(x, s[1..])
  }

  /** `[...options].sort((a, b) => a.id.localeCompare(b.id))`: a stable
      sort on a copy (the argument is a value and is left as it is). */
  function SortById(s: seq<OptionEntry>): seq<OptionEntry>
  {
    if s == [] then [] else Insert(s[0], SortById(s[1..]))
  }

  lemma {:induction false} IdLeqReflexive(a: string)
    ensures IdLeq(a, a)
  {
    if a != [] { IdLeqReflexive(a[1..]); }
  }

  /** Every option of `s` has an id at least `lo`. */
  predicate AllAtLeast(lo: string, s: seq<OptionEntry>)
  {
    forall j :: 0 <= j < |s| ==> IdLeq(lo, s[j].id)
  }

  lemma SortedCons(x: OptionEntry, s: seq<OptionEntry>)
    requires AllAtLeast(x.id, s) && SortedById(s)
    ensures SortedById([x] + s)
  {
    var r := [x] + s;
    forall i, j | 0 <= i < j < |r| ensures IdLeq(r[i].id, r[j].id) {
      if i == 0 { assert r[j] == s[j - 1]; } else { assert r[i] == s[i - 1] && r[j] == s[j - 1]; }
    }
  }

  lemma {:induction false} InsertAtLeast(lo: string, x: OptionEntry, s: seq<OptionEntry>)
    requires AllAtLeast(lo, s) && IdLeq(lo, x.id)
    ensures AllAtLeast(lo, Insert(x, s))
  {
    if s == [] || IdLeq(x.id, s[0].id) {
    } else {
      InsertAtLeast(lo, x, s[1..]);
    }
  }

  lemma {:induction false} InsertMultiset(x: OptionEntry, s: seq<OptionEntry>)
    ensures multiset(Insert(x, s)) == multiset{x} + multiset(s)
  {
    if s != [] && !IdLeq(x.id, s[0].id) {
      InsertMultiset(x, s[1..]);
      assert s == [s[0]] + s[1..];
    }
  }

  lemma {:induction false} InsertSorted(x: OptionEntry, s: seq<OptionEntry>)
    requires SortedById(s)
    ensures SortedById(Insert(x, s))
  {
    if s == [] || IdLeq(x.id, s[0].id) {
      forall j | 0 <= j < |s| ensures IdLeq(x.id, s[j].id) {
        if j > 0 { IdLeqTransitive(x.id, s[0].id, s[j].id); }
      }
      SortedCons(x, s);
    } else {
      assert SortedById(s[1..]);
      InsertSorted(x, s[1..]);
      IdLeqTotal(x.id, s[0].id);
      assert AllAtLeast(s[0].id, s[1..]);
      InsertAtLeast(s[0].id, x, s[1..]);
      SortedCons(s[0], Insert(x, s[1..]));
    }
  }

  lemma {:induction false} InsertWithId(x: OptionEntry, s: seq<OptionEntry>, k: string)
    ensures WithId(Insert(x, s), k) == (if x.id == k then [x] else []) + WithId(s, k)
  {
    if s == [] || IdLeq(x.id, s[0].id) {
      assert ([x] + s)[1..] == s;
    } else {
      var t := Insert(x, s[1..]);
      InsertWithId(x, s[1..], k);
      assert ([s[0]] + t)[1..] == t;
      if x.id == k && s[0].id == k {
        IdLeqReflexive(k);
      }
    }
  }

  /** The sort returns a sorted permutation of its argument that keeps the
      input order among options with equal ids. */
  lemma {:induction false} SortByIdCorrect(s: seq<OptionEntry>)
    ensures SortedById(SortById(s))
    ensures multiset(SortById(s)) == multiset(s)
    ensures forall k :: WithId(SortById(s), k) == WithId(s, k)
  {
    if s != [] {
      SortByIdCorrect(s[1..]);
      InsertSorted(s[0], SortById(s[1..]));
      InsertMultiset(s[0], SortById(s[1..]));
      assert s == [s[0]] + s[1..];
      forall k ensures WithId(SortById(s), k) == WithId(s, k) {
        InsertWithId(s[0], SortById(s[1..]), k);
      }
    }
  }

  predicate DistinctIds(s: seq<OptionEntry>)
  {
    forall i, j :: 0 <= i < j < |s| ==> s[i].id != s[j].id
  }

  lemma HeadIsLeast(a: seq<OptionEntry>, x: OptionEntry)
    requires SortedById(a) && x in multiset(a)
    ensures IdLeq(a[0].id, x.id)
  {
    var i :| 0 <= i < |a| && a[i] == x;
    if i == 0 { IdLeqReflexive(x.id); }
  }

  lemma HeadIsOnlyWithItsId(a: seq<OptionEntry>, x: OptionEntry)
    requires DistinctIds(a) && x in multiset(a) && a != [] && x.id == a[0].id
    ensures x == a[0]
  {
    var i :| 0 <= i < |a| && a[i] == x;
  }

  /** Two sorted lists with the same elements and pairwise-distinct ids are equal. */
  lemma {:induction false} SortedUnique(a: seq<OptionEntry>, b: seq<OptionEntry>)
    requires SortedById(a) && SortedById(b) && DistinctIds(a)
    requires multiset(a) == multiset(b)
    ensures a == b
  {
    assert |a| == |multiset(a)| == |b|;
    if a != [] {
      SameHead(a, b);
      SortedTail(a);
      SortedTail(b);
      assert DistinctIds(a[1..]);
      SortedUnique(a[1..], b[1..]);
      assert a == [a[0]] + a[1..] && b == [b[0]] + b[1..];
    }
  }

  lemma SameHead(a: seq<OptionEntry>, b: seq<OptionEntry>)
    requires SortedById(a) && SortedById(b) && DistinctIds(a)
    requires multiset(a) == multiset(b) && a != [] && b != []
    ensures a[0] == b[0]
  {
    assert a[0] in multiset(b) && b[0] in multiset(a);
    HeadIsLeast(a, b[0]);
    HeadIsLeast(b, a[0]);
    IdLeqAntisymmetric(a[0].id, b[0].id);
    HeadIsOnlyWithItsId(a, b[0]);
  }

  lemma SortedTail(a: seq<OptionEntry>)
    requires SortedById(a) && a != []
    ensures SortedById(a[1..])
    ensures multiset(a[1..]) == multiset(a) - multiset{a[0]}
  {
    assert a == [a[0]] + a[1..];
  }

  /** With pairwise-distinct ids, the order in which the options arrive
      does not change the sorted list. */
  lemma SortByIdPermutationInvariant(a: seq<OptionEntry>, b: seq<OptionEntry>)
    requires DistinctIds(a) && multiset(a) == multiset(b)
    ensures SortById(a) == SortById(b)
  {
    SortByIdCorrect(a);
    SortByIdCorrect(b);
    DistinctIdsOfPermutation(a, SortById(a));
    SortedUnique(SortById(a), SortById(b));
  }

  lemma DistinctIdsOfPermutation(a: seq<OptionEntry>, b: seq<OptionEntry>)
    requires DistinctIds(a) && multiset(a) == multiset(b)
    ensures DistinctIds(b)
  {
    forall i, j | 0 <= i < j < |b| ensures b[i].id != b[j].id {
      PermutedIdsDiffer(a, b, i, j);
    }
  }

  lemma PermutedIdsDiffer(a: seq<OptionEntry>, b: seq<OptionEntry>, i: nat, j: nat)
    requires DistinctIds(a) && multiset(a) == multiset(b) && i < j < |b|
    ensures b[i].id != b[j].id
  {
    if b[i].id == b[j].id {
      assert b[i] in multiset(a) && b[j] in multiset(a);
      var p :| 0 <= p < |a| && a[p] == b[i];
      var q :| 0 <= q < |a| && a[q] == b[j];
      if p == q {
        TwoOccurrences(b, i, j);
        MultiplicityAtMostOne(a, p);
      }
    }
  }

  lemma TwoOccurrences(b: seq<OptionEntry>, i: nat, j: nat)
    requires i < j < |b| && b[i] == b[j]
    ensures multiset(b)[b[i]] >= 2
  {
    assert b == b[..i] + [b[i]] + b[i + 1..j] + [b[j]] + b[j + 1..];
  }

  lemma {:induction false} MultiplicityAtMostOne(a: seq<OptionEntry>, p: nat)
    requires DistinctIds(a) && p < |a|
    ensures multiset(a)[a[p]] == 1
  {
    var x := a[p];
    assert a == a[..p] + [x] + a[p + 1..];
    assert x !in a[..p] && x !in a[p + 1..] by {
      forall q | 0 <= q < |a| && q != p ensures a[q] != x {
        assert a[q].id != a[p].id;
      }
    }
  }

  // ---------------------------------------------------------------------
  // The combined string
  // ---------------------------------------------------------------------

  /** An option rendered as `id:text`; the text is normalised, the id is kept as given. */
  function Render(o: OptionEntry): string
  {
    o.id + ":" + Normalize(o.text)
  }

  function RenderAll(s: seq<OptionEntry>): (r: seq<string>)
    ensures |r| == |s| && forall i :: 0 <= i < |s| ==> r[i] == Render(s[i])
  {
    seq(|s|, i requires 0 <= i < |s| => Render(s[i]))
  }

  /** `parts.join(sep)` */
  function Join(parts: seq<string>, sep: string): string
  {
    if parts == [] then "" else if |parts| == 1 then parts[0] else parts[0] + sep + Join(parts[1..], sep)
  }

  /** The string whose digest is the fingerprint id. */
  function Combined(stem: string, options: seq<OptionEntry>): string
  {
    Normalize(stem) + "::" + Join(RenderAll(SortById(options)), "|")
  }

  // ---------------------------------------------------------------------
  // JSON.stringify of the option list, used by the raw hash
  // ---------------------------------------------------------------------

  function HexDigit(n: nat): (c: char)
    requires n < 16
    ensures IsHexDigit(c)
  {
    if n < 10 then ('0' as int + n) as char else ('a' as int + n - 10) as char
  }

  predicate IsHexDigit(c: char)
  {
    ('0' <= c <= '9') || ('a' <= c <= 'f')
  }

  /** One character inside a JSON string literal, escaped as JSON.stringify does. */
  function EscapeChar(c: char): string
  {
    if c == '"' then "\\\""
    else if c == '\\' then "\\\\"
    else if c == '\U{0008}' then "\\b"
    else if c == '\U{000C}' then "\\f"
    else if c == '\n' then "\\n"
    else if c == '\r' then "\\r"
    else if c == '\t' then "\\t"
    else if (c as int) < 0x20 then "\\u00" + [HexDigit(c as int / 16), HexDigit(c as int % 16)]
    else [c]
  }

  function Quote(s: string): string
  {
    "\"" + QuoteBody(s) + "\""
  }

  function QuoteBody(s: string): string
  {
    if s == [] then "" else EscapeChar(s[0]) + QuoteBody(s[1..])
  }

  function OptionJson(o: OptionEntry): string
  {
    "{\"id\":" + Quote(o.id) + ",\"text\":" + Quote(o.text) + "}"
  }

  function OptionsJson(s: seq<OptionEntry>): string
  {
    "[" + Join(OptionJsonAll(s), ",") + "]"
  }

  function OptionJsonAll(s: seq<OptionEntry>): (r: seq<string>)
    ensures |r| == |s|
  {
    if s == [] then [] else [OptionJson(s[0])] + OptionJsonAll(s[1..])
  }

  /** The string whose digest is the raw hash: the stem as given followed by
      the options as given, in their original order. */
  function RawKey(stem: string, options: seq<OptionEntry>): string
  {
    stem + OptionsJson(options)
  }

  // ---------------------------------------------------------------------
  // Hex rendering of the digest and the fingerprint
  // ---------------------------------------------------------------------

  function HexValue(c: char): (n: nat)
    requires IsHexDigit(c)
    ensures n < 16 && HexDigit(n) == c
  {
    if c <= '9' then c as int - '0' as int else c as int - 'a' as int + 10
  }

  /** `bytes.map(b => b.toString(16).padStart(2, '0')).join('')` */
  function Hex(bytes: seq<Byte>): (r: string)
    ensures |r| == 2 * |bytes|
    ensures forall i :: 0 <= i < |r| ==> IsHexDigit(r[i])
  {
    if bytes == [] then "" else [HexDigit(bytes[0] / 16), HexDigit(bytes[0] % 16)] + Hex(bytes[1..])
  }

  /** Reads back a string of lowercase hex digit pairs. */
  function Unhex(s: string): seq<Byte>
    requires |s| % 2 == 0 && forall i :: 0 <= i < |s| ==> IsHexDigit(s[i])
  {
    if s == [] then [] else [HexValue(s[0]) * 16 + HexValue(s[1])] + Unhex(s[2..])
  }

  /** Every byte becomes exactly two digits, so the rendering can be read back. */
  lemma {:induction false} HexRoundTrip(bytes: seq<Byte>)
    ensures Unhex(Hex(bytes)) == bytes
  {
    if bytes != [] {
      var h := Hex(bytes);
      assert h[2..] == Hex(bytes[1..]);
      HexRoundTrip(bytes[1..]);
      var b := bytes[0];
      assert HexValue(h[0]) == b / 16 && HexValue(h[1]) == b % 16 by {
        assert HexDigit(HexValue(h[0])) == HexDigit(b / 16);
        HexDigitInjective(HexValue(h[0]), b / 16);
        HexDigitInjective(HexValue(h[1]), b % 16);
      }
    }
  }

  lemma HexDigitInjective(m: nat, n: nat)
    requires m < 16 && n < 16 && HexDigit(m) == HexDigit(n)
    ensures m == n
  {
  }

  lemma HexInjective(a: seq<Byte>, b: seq<Byte>)
    requires Hex(a) == Hex(b)
    ensures a == b
  {
    HexRoundTrip(a);
    HexRoundTrip(b);
  }

  /** `generateFingerprint(stem, options)`, with `sha1` the digest of a string. */
  function GenerateFingerprint(sha1: string -> seq<Byte>, stem: string, options: seq<OptionEntry>): Fingerprint
  {
    Fingerprint(Hex(sha1(Combined(stem, options))), Hex(sha1(RawKey(stem, options))))
  }

  // ---------------------------------------------------------------------
  // What the fingerprint id does and does not depend on
  // ---------------------------------------------------------------------

  lemma {:induction false} TrimStartSkipsSpaces(p: string, u: string)
    requires AllSpace(p)
    ensures TrimStart(p + u) == TrimStart(u)
  {
    if p == [] {
      assert p + u == u;
    } else {
      var w := p + u;
      assert w[0] == p[0];
      assert w[1..] == p[1..] + u;
      AllSpaceSlice(p, 1, |p|);
      TrimStartSkipsSpaces(p[1..], u);
      assert TrimStart(w) == TrimStart(w[1..]);
    }
  }

  lemma {:induction false} TrimEndSkipsSpaces(u: string, q: string)
    requires AllSpace(q)
    ensures TrimEnd(u + q) == TrimEnd(u)
  {
    if q == [] {
      assert u + q == u;
    } else {
      var w := u + q;
      var q' := q[..|q| - 1];
      assert w[|w| - 1] == q[|q| - 1];
      assert w[..|w| - 1] == u + q';
      AllSpaceSlice(q, 0, |q| - 1);
      TrimEndSkipsSpaces(u, q');
      assert TrimEnd(w) == TrimEnd(w[..|w| - 1]);
    }
  }

  lemma {:induction false} TrimStartKeepsTail(u: string, q: string)
    requires !AllSpace(u)
    ensures TrimStart(u + q) == TrimStart(u) + q
  {
    assert u != [];
    if IsSpace(u[0]) {
      assert (u + q)[1..] == u[1..] + q;
      assert !AllSpace(u[1..]) by {
        var i :| 0 <= i < |u| && !IsSpace(u[i]);
        assert u[1..][i - 1] == u[i];
      }
      TrimStartKeepsTail(u[1..], q);
    }
  }

  /** Whitespace around a string does not survive trimming. */
  lemma TrimIgnoresPadding(p: string, t: string, q: string)
    requires AllSpace(p) && AllSpace(q)
    ensures Trim(p + t + q) == Trim(t)
  {
    var u := t + q;
    assert p + t + q == p + u;
    assert Trim(p + u) == Trim(u) by { TrimStartSkipsSpaces(p, u); }
    assert Trim(u) == Trim(t) by { TrimEndPadded(t, q); }
  }

  lemma TrimEndPadded(t: string, q: string)
    requires AllSpace(q)
    ensures Trim(t + q) == Trim(t)
  {
    if AllSpace(t) {
      TrimAllSpace(t);
      AllSpaceConcat(t, q);
      TrimAllSpace(t + q);
    } else {
      TrimStartKeepsTail(t, q);
      TrimEndSkipsSpaces(TrimStart(t), q);
    }
  }

  lemma TrimAllSpace(s: string)
    requires AllSpace(s)
    ensures TrimStart(s) == [] && Trim(s) == []
  {
    TrimStartSkipsSpaces(s, []);
    assert s + [] == s;
  }

  lemma {:induction false} TrimStartCommutesWithLower(s: string)
    ensures TrimStart(ToLower(s)) == ToLower(TrimStart(s))
  {
    if s != [] {
      assert ToLower(s)[1..] == ToLower(s[1..]);
      TrimStartCommutesWithLower(s[1..]);
    }
  }

  lemma {:induction false} TrimEndCommutesWithLower(s: string)
    ensures TrimEnd(ToLower(s)) == ToLower(TrimEnd(s))
  {
    if s != [] {
      assert ToLower(s)[..|s| - 1] == ToLower(s[..|s| - 1]);
      TrimEndCommutesWithLower(s[..|s| - 1]);
    }
  }

  /** Trimming and lower-casing commute, so only the lower-cased text matters. */
  lemma NormalizeIgnoresCase(s: string, t: string)
    requires ToLower(s) == ToLower(t)
    ensures Normalize(s) == Normalize(t)
  {
    TrimStartCommutesWithLower(s);
    TrimStartCommutesWithLower(t);
    TrimEndCommutesWithLower(TrimStart(s));
    TrimEndCommutesWithLower(TrimStart(t));
  }

  /** Stems that differ only in letter case and surrounding whitespace get
      the same combined string, hence the same fingerprint id. */
  lemma StemVariantsShareId(sha1: string -> seq<Byte>, stem: string, p: string, t: string, q: string, options: seq<OptionEntry>)
    requires AllSpace(p) && AllSpace(q) && ToLower(t) == ToLower(stem)
    ensures Combined(p + t + q, options) == Combined(stem, options)
    ensures GenerateFingerprint(sha1, p + t + q, options).id == GenerateFingerprint(sha1, stem, options).id
  {
    PaddedCaseVariant(p, t, q, stem);
  }

  /** With pairwise-distinct option ids, any arrangement of the same options
      gives the same combined string, hence the same fingerprint id. */
  lemma OptionOrderIgnored(sha1: string -> seq<Byte>, stem: string, a: seq<OptionEntry>, b: seq<OptionEntry>)
    requires DistinctIds(a) && multiset(a) == multiset(b)
    ensures Combined(stem, a) == Combined(stem, b)
    ensures GenerateFingerprint(sha1, stem, a).id == GenerateFingerprint(sha1, stem, b).id
  {
    SortByIdPermutationInvariant(a, b);
  }

  /** Text that differs from `u` only in surrounding whitespace and ASCII
      letter case normalises like `u`. */
  lemma PaddedCaseVariant(p: string, t: string, q: string, u: string)
    requires AllSpace(p) && AllSpace(q) && ToLower(t) == ToLower(u)
    ensures Normalize(p + t + q) == Normalize(u)
  {
    TrimIgnoresPadding(p, t, q);
    NormalizeIgnoresCase(t, u);
  }

  /** Option lists that agree position by position on the id and on the
      normalised text. */
  predicate Alike(a: seq<OptionEntry>, b: seq<OptionEntry>)
  {
    && |a| == |b|
    && (forall i :: 0 <= i < |a| ==> a[i].id == b[i].id)
    && (forall i :: 0 <= i < |a| ==> Normalize(a[i].text) == Normalize(b[i].text))
  }

  /** Option lists that agree position by position on the id and on `key`. */
  predicate AlikeBy(key: OptionEntry -> string, a: seq<OptionEntry>, b: seq<OptionEntry>)
  {
    |a| == |b| && forall i :: 0 <= i < |a| ==> a[i].id == b[i].id && key(a[i]) == key(b[i])
  }

  /** Putting alike options in front of alike lists keeps them alike. */
  lemma ConsAlike(key: OptionEntry -> string, x: OptionEntry, y: OptionEntry, s: seq<OptionEntry>, t: seq<OptionEntry>)
    requires x.id == y.id && key(x) == key(y) && AlikeBy(key, s, t)
    ensures AlikeBy(key, [x] + s, [y] + t)
  {
    forall i | 0 < i < |s| + 1 ensures ([x] + s)[i].id == ([y] + t)[i].id && key(([x] + s)[i]) == key(([y] + t)[i]) {
      assert ([x] + s)[i] == s[i - 1] && ([y] + t)[i] == t[i - 1];
    }
  }

  /** Insertion looks at ids only, so alike lists stay alike. */
  lemma {:induction false} InsertAlike(key: OptionEntry -> string, x: OptionEntry, y: OptionEntry, s: seq<OptionEntry>, t: seq<OptionEntry>)
    requires x.id == y.id && key(x) == key(y) && AlikeBy(key, s, t)
    ensures AlikeBy(key, Insert(x, s), Insert(y, t))
    decreases |s|
  {
    if s == [] || IdLeq(x.id, s[0].id) {
      ConsAlike(key, x, y, s, t);
    } else {
      assert AlikeBy(key, s[1..], t[1..]);
      InsertAlike(key, x, y, s[1..], t[1..]);
      ConsAlike(key, s[0], t[0], Insert(x, s[1..]), Insert(y, t[1..]));
    }
  }

  /** The sort looks at ids only, so alike lists sort to alike lists. */
  lemma {:induction false} SortAlike(key: OptionEntry -> string, a: seq<OptionEntry>, b: seq<OptionEntry>)
    requires AlikeBy(key, a, b)
    ensures AlikeBy(key, SortById(a), SortById(b))
    decreases |a|
  {
    if a != [] {
      assert AlikeBy(key, a[1..], b[1..]);
      SortAlike(key, a[1..], b[1..]);
      InsertAlike(key, a[0], b[0], SortById(a[1..]), SortById(b[1..]));
    }
  }

  /** Options that agree on the id and on the normalised text, position by
      position, give the same combined string, hence the same fingerprint
      id: the case and surrounding whitespace of option texts do not matter. */
  lemma OptionTextVariantsShareId(sha1: string -> seq<Byte>, stem: string, a: seq<OptionEntry>, b: seq<OptionEntry>)
    requires Alike(a, b)
    ensures Combined(stem, a) == Combined(stem, b)
    ensures GenerateFingerprint(sha1, stem, a).id == GenerateFingerprint(sha1, stem, b).id
  {
    assert AlikeBy(Render, a, b);
    SortAlike(Render, a, b);
    var sa, sb := SortById(a), SortById(b);
    assert RenderAll(sa) == RenderAll(sb);
  }

  /** Option ids are taken as given: two options with the same text whose
      ids differ (in letter case, say) render differently. */
  lemma RenderKeepsIdAsGiven(o1: OptionEntry, o2: OptionEntry)
    requires |o1.id| == |o2.id| && o1.id != o2.id
    ensures Render(o1) != Render(o2)
  {
    PrefixDiffers(o1.id, ":", Normalize(o1.text), o2.id, Normalize(o2.text));
  }

  lemma PrefixDiffers(x1: string, m: string, y1: string, x2: string, y2: string)
    requires |x1| == |x2| && x1 != x2
    ensures x1 + m + y1 != x2 + m + y2
  {
    assert (x1 + m + y1)[..|x1|] == x1;
    assert (x2 + m + y2)[..|x2|] == x2;
  }

  /** Without options the combined string is the normalised stem followed by the delimiter. */
  lemma CombinedWithoutOptions(stem: string)
    ensures Combined(stem, []) == Normalize(stem) + "::"
  {
  }

  /** The fingerprint id is the hex rendering of a digest: 40 lowercase hex
      digits for a 20-byte SHA-1 digest, and distinct digests give distinct ids. */
  lemma FingerprintIdShape(sha1: string -> seq<Byte>, stem: string, options: seq<OptionEntry>, stem2: string, options2: seq<OptionEntry>)
    requires sha1(Combined(stem, options)) != sha1(Combined(stem2, options2))
    ensures |GenerateFingerprint(sha1, stem, options).id| == 2 * |sha1(Combined(stem, options))|
    ensures GenerateFingerprint(sha1, stem, options).id != GenerateFingerprint(sha1, stem2, options2).id
  {
    if Hex(sha1(Combined(stem, options))) == Hex(sha1(Combined(stem2, options2))) {
      HexInjective(sha1(Combined(stem, options)), sha1(Combined(stem2, options2)));
    }
  }

  /** "2+2=?" with options A = "3" and B = "4": both arrangements share the
      combined string, while the raw key, which keeps the original order, differs. */
  lemma TwoPlusTwoExample()
    ensures Combined("2+2=?", [OptionEntry("A", "3"), OptionEntry("B", "4")]) == "2+2=?::A:3|B:4"
    ensures Combined("2+2=?", [OptionEntry("B", "4"), OptionEntry("A", "3")]) == "2+2=?::A:3|B:4"
    ensures RawKey("2+2=?", [OptionEntry("A", "3"), OptionEntry("B", "4")])
         != RawKey("2+2=?", [OptionEntry("B", "4"), OptionEntry("A", "3")])
  {
    var a, b := OptionEntry("A", "3"), OptionEntry("B", "4");
    var q := "2+2=?";
    var c := q + "::" + "A:3|B:4";
    assert c == "2+2=?::A:3|B:4";
    assert Combined(q, [a, b]) == c && Combined(q, [b, a]) == c by {
      TwoPlusTwoSorted();
      TwoPlusTwoCombined();
    }
    TwoPlusTwoRawKeys();
  }

  lemma TwoPlusTwoSorted()
    ensures SortById([OptionEntry("A", "3"), OptionEntry("B", "4")]) == [OptionEntry("A", "3"), OptionEntry("B", "4")]
    ensures SortById([OptionEntry("B", "4"), OptionEntry("A", "3")]) == [OptionEntry("A", "3"), OptionEntry("B", "4")]
  {
    var a, b := OptionEntry("A", "3"), OptionEntry("B", "4");
    assert IdLeq("A", "B") && !IdLeq("B", "A");
    assert [a, b][1..] == [b] && [b, a][1..] == [a] && [a][1..] == [] && [b][1..] == [];
    assert SortById([a]) == [a] && SortById([b]) == [b];
    assert SortById([a, b]) == Insert(a, [b]) == [a, b];
    assert SortById([b, a]) == Insert(b, [a]) == [a, b];
  }

  lemma TwoPlusTwoCombined()
    ensures Join(RenderAll([OptionEntry("A", "3"), OptionEntry("B", "4")]), "|") == "A:3|B:4"
    ensures Normalize("2+2=?") == "2+2=?"
  {
    TwoPlusTwoStem();
    TwoPlusTwoJoined();
  }

  lemma TwoPlusTwoStem()
    ensures Normalize("2+2=?") == "2+2=?"
  {
    var t := "2+2=?";
    assert !IsSpace(t[0]) && !IsSpace(t[1]) && !IsSpace(t[2]) && !IsSpace(t[3]) && !IsSpace(t[4]);
    NoSpaceNoUpperIsNormal(t);
  }

  lemma TwoPlusTwoJoined()
    ensures Join(RenderAll([OptionEntry("A", "3"), OptionEntry("B", "4")]), "|") == "A:3|B:4"
  {
    var a, b := OptionEntry("A", "3"), OptionEntry("B", "4");
    assert RenderAll([a, b]) == ["A:3", "B:4"] by {
      RenderTwoPlusTwoOptions();
      RenderAllTwo(a, b);
    }
    JoinTwo("A:3", "B:4", "|");
    assert "A:3" + "|" + "B:4" == "A:3|B:4";
  }

  lemma RenderTwoPlusTwoOptions()
    ensures Render(OptionEntry("A", "3")) == "A:3" && Render(OptionEntry("B", "4")) == "B:4"
  {
    RenderA3();
    RenderB4();
  }

  lemma RenderA3() ensures Render(OptionEntry("A", "3")) == "A:3" { RenderOne("A", '3'); }
  lemma RenderB4() ensures Render(OptionEntry("B", "4")) == "B:4" { RenderOne("B", '4'); }

  /** An option whose text is one character that neither trimming nor
      lower-casing changes. */
  lemma RenderOne(id: string, c: char)
    requires !IsSpace(c) && !('A' <= c <= 'Z')
    ensures Render(OptionEntry(id, [c])) == id + ":" + [c]
  {
    assert TrimStart([c]) == [c];
    assert TrimEnd([c]) == [c];
    assert ToLower([c]) == [c];
  }

  lemma RenderAllTwo(a: OptionEntry, b: OptionEntry)
    ensures RenderAll([a, b]) == [Render(a), Render(b)]
  {
    var r := RenderAll([a, b]);
    assert |r| == 2 && r[0] == Render(a) && r[1] == Render(b);
    PairFromElements(r, Render(a), Render(b));
  }

  /** A two-element sequence, given its elements (kept apart from the
      rendering so that the solver does not unfold it). */
  lemma PairFromElements(r: seq<string>, x: string, y: string)
    requires |r| == 2 && r[0] == x && r[1] == y
    ensures r == [x, y]
  {
  }

  lemma JoinTwo(x: string, y: string, sep: string)
    ensures Join([x, y], sep) == x + sep + y
  {
    assert [x, y][1..] == [y];
  }

  lemma TwoPlusTwoRawKeys()
    ensures RawKey("2+2=?", [OptionEntry("A", "3"), OptionEntry("B", "4")])
         != RawKey("2+2=?", [OptionEntry("B", "4"), OptionEntry("A", "3")])
  {
    var a, b := OptionEntry("A", "3"), OptionEntry("B", "4");
    var q := "2+2=?";
    assert EscapeChar('A') == ['A'] && EscapeChar('B') == ['B'];
    RawKeyOrderMatters(q, a, b);
  }

  /** The raw key keeps the options in the order given: two options with
      different one-character ids that JSON leaves alone give different raw
      keys in the two orders, whatever the stem and the texts. */
  lemma RawKeyOrderMatters(stem: string, a: OptionEntry, b: OptionEntry)
    requires |a.id| == 1 && EscapeChar(a.id[0]) == a.id
    requires |b.id| == 1 && EscapeChar(b.id[0]) == b.id
    requires a.id != b.id
    ensures RawKey(stem, [a, b]) != RawKey(stem, [b, a])
  {
    RawKeyOfTwo(stem, a, b);
    RawKeyOfTwo(stem, b, a);
    assert a.id[0] != b.id[0] by {
      assert a.id == [a.id[0]] && b.id == [b.id[0]];
    }
  }

  /** The raw key of two options holds the first one's id, when it is a
      single character JSON leaves alone, right after the stem, the opening
      bracket and `{"id":"`. */
  lemma RawKeyOfTwo(stem: string, a: OptionEntry, b: OptionEntry)
    requires |a.id| == 1 && EscapeChar(a.id[0]) == a.id
    ensures |RawKey(stem, [a, b])| > |stem| + 8
    ensures RawKey(stem, [a, b])[|stem| + 8] == a.id[0]
  {
    var ja, jb := OptionJson(a), OptionJson(b);
    RawKeyTwo(stem, a, b);
    OptionJsonId(a);
    var key := stem + "[" + (ja + "," + jb) + "]";
    assert key[|stem| + 8] == ja[7];
  }

  lemma RawKeyTwo(stem: string, a: OptionEntry, b: OptionEntry)
    ensures RawKey(stem, [a, b]) == stem + "[" + (OptionJson(a) + "," + OptionJson(b)) + "]"
  {
    var ja, jb := OptionJson(a), OptionJson(b);
    assert [a, b][1..] == [b];
    assert OptionJsonAll([a, b]) == [ja, jb];
    assert [ja, jb][1..] == [jb];
    assert Join([ja, jb], ",") == ja + "," + jb;
  }

  /** `{"id":"` takes seven characters, so a one-character id that JSON
      leaves alone sits at index 7. */
  lemma OptionJsonId(a: OptionEntry)
    requires |a.id| == 1 && EscapeChar(a.id[0]) == a.id
    ensures |OptionJson(a)| > 7 && OptionJson(a)[7] == a.id[0]
  {
    assert a.id[1..] == [];
    assert QuoteBody(a.id) == a.id;
  }

  /** A string with no whitespace and no upper-case ASCII letter is already normal. */
  lemma NoSpaceNoUpperIsNormal(s: string)
    requires forall i :: 0 <= i < |s| ==> !IsSpace(s[i]) && !('A' <= s[i] <= 'Z')
    ensures Normalize(s) == s
  {
    assert TrimStart(s) == s;
    assert TrimEnd(s) == s;
  }

  /** The delimiters may occur in option text, so two different option
      lists can share a combined string. */
  lemma DelimiterInTextCollides()
    ensures Combined("q", [OptionEntry("A", "x|b:y")]) == Combined("q", [OptionEntry("A", "x"), OptionEntry("b", "y")])
  {
    var a, b, c := OptionEntry("A", "x"), OptionEntry("b", "y"), OptionEntry("A", "x|b:y");
    assert SortById([a, b]) == [a, b] by {
      assert IdLeq("A", "b");
      assert [a, b][1..] == [b] && [b][1..] == [];
      assert SortById([b]) == [b];
    }
    RenderCollision();
    CombinedCollision("q", a, b, c);
  }

  /** One option whose text holds the delimiter renders like two options. */
  lemma CombinedCollision(stem: string, a: OptionEntry, b: OptionEntry, c: OptionEntry)
    requires SortById([a, b]) == [a, b]
    requires Render(c) == Render(a) + "|" + Render(b)
    ensures Combined(stem, [c]) == Combined(stem, [a, b])
  {
    SingleOption(c);
    RenderAllTwo(a, b);
    JoinTwo(Render(a), Render(b), "|");
  }

  /** A single option is joined on its own. */
  lemma SingleOption(c: OptionEntry)
    ensures Join(RenderAll(SortById([c])), "|") == Render(c)
  {
    assert [c][1..] == [];
    assert SortById([c]) == [c];
    var r := RenderAll([c]);
    assert |r| == 1 && r[0] == Render(c);
    assert r == [Render(c)];
  }

  lemma RenderCollision()
    ensures Render(OptionEntry("A", "x|b:y")) == Render(OptionEntry("A", "x")) + "|" + Render(OptionEntry("b", "y"))
  {
    RenderAx();
    RenderBy();
    RenderDelimitedText();
    DelimitedLiteral();
  }

  lemma DelimitedLiteral() ensures "A:x|b:y" == "A:x" + "|" + "b:y" { }

  lemma RenderAx() ensures Render(OptionEntry("A", "x")) == "A:x" { RenderOne("A", 'x'); }
  lemma RenderBy() ensures Render(OptionEntry("b", "y")) == "b:y" { RenderOne("b", 'y'); }

  /** The text `x|b:y` is already normal, so it is rendered as it stands. */
  lemma RenderDelimitedText()
    ensures Render(OptionEntry("A", "x|b:y")) == "A:x|b:y"
  {
    var t := "x|b:y";
    assert Normalize(t) == t by {
      assert !IsSpace(t[0]) && !IsSpace(t[1]) && !IsSpace(t[2]) && !IsSpace(t[3]) && !IsSpace(t[4]);
      NoSpaceNoUpperIsNormal(t);
    }
    assert "A" + ":" + t == "A:x|b:y";
  }
}

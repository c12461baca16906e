/** The parts of Go's `strings` and `sort` packages that the operator relies on. */
module GoStrings {

  /** `unicode.IsSpace`. */
  predicate IsSpace(c: char) {
    || c == ' ' || ('\t' <= c <= '\r') || c == '\U{85}' || c == '\U{A0}' || c == '\U{1680}'
    || ('\U{2000}' <= c <= '\U{200A}') || c == '\U{2028}' || c == '\U{2029}' || c == '\U{202F}'
    || c == '\U{205F}' || c == '\U{3000}'
  }

  function TrimLeft(s: string): string {
    if s != "" && IsSpace(s[0]) then TrimLeft(s[1..]) else s
  }

  function TrimRight(s: string): string {
    if s != "" && IsSpace(s[|s| - 1]) then TrimRight(s[..|s| - 1]) else s
  }

  function TrimSpace(s: string): string {
    TrimRight(TrimLeft(s))
  }

  /** `strings.Split` with a one-character separator. */
  function Split(s: string, sep: char): (parts: seq<string>)
    ensures parts != []
  {
    if s == "" then [""]
    else
      var rest := Split(s[1..], sep);
      if s[0] == sep then [""] + rest else [[s[0]] + rest[0]] + rest[1..]
  }

  /** `strings.Join` with a one-character separator. */
  function Join(parts: seq<string>, sep: char): string {
    if parts == [] then ""
    else if |parts| == 1 then parts[0]
    else parts[0] + [sep] + Join(parts[1..], sep)
  }

  /** Go's string order. Code-point order and UTF-8 byte order coincide. */
  predicate Leq(a: string, b: string) {
    a == "" || (b != "" && (a[0] < b[0] || (a[0] == b[0] && Leq(a[1..], b[1..]))))
  }

  predicate Sorted(xs: seq<string>) {
    forall i, j :: 0 <= i < j < |xs| ==> Leq(xs[i], xs[j])
  }

  function Insert(x: string, xs: seq<string>): seq<string> {
    if xs == [] || Leq(x, xs[0]) then [x] + xs else [xs[0]] + Insert(x, xs[1..])
  }

  /** `sort.Strings`: the order is total, so only one result is possible (`SortedIsUnique`). */
  function Sort(xs: seq<string>): seq<string> {
    if xs == [] then [] else Insert(xs[0], Sort(xs[1..]))
  }

  /** `unicode.ToLower` as far as its result is ASCII: besides the ASCII letters, the Kelvin sign and the
      capital I with a dot have ASCII lower-case letters. */
  function LowerChar(c: char): char {
    if 'A' <= c <= 'Z' then c - 'A' + 'a'
    else if c == '\U{212A}' then 'k'
    else if c == '\U{130}' then 'i'
    else c
  }

  /** `strings.ToLower`; letters whose lower-case form is outside ASCII are left alone. */
  function ToLower(s: string): (r: string)
    ensures |r| == |s| && forall i :: 0 <= i < |s| ==> r[i] == LowerChar(s[i])
  {
    if s == "" then "" else [LowerChar(s[0])] + ToLower(s[1..])
  }

  lemma ToLowerTwice(s: string)
    ensures ToLower(ToLower(s)) == ToLower(s)
  {
  }

  // Trimming

  predicate Trimmed(s: string) {
    s != "" ==> !IsSpace(s[0]) && !IsSpace(s[|s| - 1])
  }

  lemma TrimRightPrefix(s: string)
    ensures TrimRight(s) <= s
    ensures TrimRight(s) != "" ==> !IsSpace(TrimRight(s)[|TrimRight(s)| - 1])
  {
  }

  lemma TrimLeftSuffix(s: string)
    ensures |TrimLeft(s)| <= |s| && TrimLeft(s) == s[|s| - |TrimLeft(s)|..]
    ensures TrimLeft(s) != "" ==> !IsSpace(TrimLeft(s)[0])
  {
  }

  lemma TrimSpaceTrims(s: string)
    ensures Trimmed(TrimSpace(s))
    ensures forall c :: c in TrimSpace(s) ==> c in s
  {
    TrimLeftSuffix(s);
    TrimRightPrefix(TrimLeft(s));
  }

  lemma TrimmedIsFixed(s: string)
    requires Trimmed(s)
    ensures TrimSpace(s) == s
  {
  }

  lemma {:induction false} TrimLeftSnoc(s: string, c: char)
    requires IsSpace(c)
    ensures TrimSpace(s + [c]) == TrimSpace(s)
  {
    if s == "" {
      assert s + [c] == [c] && [c][1..] == "";
    } else if IsSpace(s[0]) {
      assert (s + [c])[1..] == s[1..] + [c];
      TrimLeftSnoc(s[1..], c);
    } else {
      assert TrimLeft(s + [c]) == s + [c];
      assert (s + [c])[..|s|] == s;
    }
  }

  predicate AllSpace(s: string) {
    forall c :: c in s ==> IsSpace(c)
  }

  lemma {:induction false} TrimLeftCuts(s: string) returns (l: string)
    ensures s == l + TrimLeft(s) && AllSpace(l)
  {
    l := "";
    if s != "" && IsSpace(s[0]) {
      l := TrimLeftCuts(s[1..]);
      assert s == [s[0]] + s[1..];
      l := [s[0]] + l;
    }
  }

  lemma {:induction false} TrimRightCuts(s: string) returns (t: string)
    ensures s == TrimRight(s) + t && AllSpace(t)
  {
    t := "";
    if s != "" && IsSpace(s[|s| - 1]) {
      t := TrimRightCuts(s[..|s| - 1]);
      assert s == s[..|s| - 1] + [s[|s| - 1]];
      t := t + [s[|s| - 1]];
    }
  }

  /** Trimming cuts off white space on both sides and all of it. */
  lemma TrimSpaceCuts(s: string) returns (l: string, t: string)
    ensures s == l + TrimSpace(s) + t && AllSpace(l) && AllSpace(t) && Trimmed(TrimSpace(s))
  {
    l := TrimLeftCuts(s);
    t := TrimRightCuts(TrimLeft(s));
    TrimSpaceTrims(s);
  }

  lemma {:induction false} TrimIgnoresLeft(l: string, s: string)
    requires AllSpace(l)
    ensures TrimSpace(l + s) == TrimSpace(s)
  {
    if l == "" {
      assert l + s == s;
    } else {
      assert l[0] in l && (l + s)[1..] == l[1..] + s;
      assert AllSpace(l[1..]);
      TrimIgnoresLeft(l[1..], s);
    }
  }

  /** White space around a text does not change what trimming leaves of it. */
  lemma {:induction false} TrimIgnoresSpace(l: string, s: string, t: string)
    requires AllSpace(l) && AllSpace(t)
    ensures TrimSpace(l + s + t) == TrimSpace(s)
  {
    if t == "" {
      assert l + s + t == l + s;
      TrimIgnoresLeft(l, s);
    } else {
      var n := |t| - 1;
      assert t[n] in t && AllSpace(t[..n]);
      TrimIgnoresSpace(l, s, t[..n]);
      assert l + s + t == l + s + t[..n] + [t[n]];
      TrimLeftSnoc(l + s + t[..n], t[n]);
    }
  }

  lemma ToLowerConcat(a: string, b: string)
    ensures ToLower(a + b) == ToLower(a) + ToLower(b)
  {
  }

  lemma ToLowerSpace(s: string)
    requires AllSpace(s)
    ensures ToLower(s) == s
  {
    forall i | 0 <= i < |s| ensures LowerChar(s[i]) == s[i] {
      assert s[i] in s;
    }
  }

  // Splitting

  lemma {:induction false} SplitPart(t: string, rest: string, sep: char)
    requires sep !in t
    ensures Split(t, sep) == [t]
    ensures Split(t + [sep] + rest, sep) == [t] + Split(rest, sep)
  {
    var s := t + [sep] + rest;
    if t == "" {
      assert s[1..] == rest;
    } else {
      SplitPart(t[1..], rest, sep);
      assert s[1..] == t[1..] + [sep] + rest;
      assert [t[0]] + t[1..] == t;
    }
  }

  lemma {:induction false} SplitHasNoSeparator(s: string, sep: char)
    ensures forall p :: p in Split(s, sep) ==> sep !in p
  {
    if s != "" {
      SplitHasNoSeparator(s[1..], sep);
      var rest := Split(s[1..], sep);
      assert sep !in rest[0];
    }
  }

  /** Joining the parts gives the text back. */
  lemma {:induction false} SplitThenJoin(s: string, sep: char)
    ensures Join(Split(s, sep), sep) == s
  {
    if s != "" {
      SplitThenJoin(s[1..], sep);
      var rest := Split(s[1..], sep);
      assert s == [s[0]] + s[1..];
      if s[0] == sep {
        assert ([""] + rest)[1..] == rest;
      } else {
        JoinCons(s[0], rest, sep);
      }
    }
  }

  lemma JoinCons(c: char, parts: seq<string>, sep: char)
    requires parts != []
    ensures Join([[c] + parts[0]] + parts[1..], sep) == [c] + Join(parts, sep)
  {
    var longer := [[c] + parts[0]] + parts[1..];
    assert longer[1..] == parts[1..];
    if |parts| > 1 {
      assert [c] + parts[0] + [sep] + Join(parts[1..], sep) == [c] + (parts[0] + [sep] + Join(parts[1..], sep));
    }
  }

  /** A text has exactly these two parts if it is the two around one separator. */
  lemma SplitInTwo(s: string, sep: char, a: string, b: string)
    ensures Split(s, sep) == [a, b] <==> s == a + [sep] + b && sep !in a && sep !in b
  {
    if Split(s, sep) == [a, b] {
      SplitThenJoin(s, sep);
      SplitHasNoSeparator(s, sep);
      assert [a, b][1..] == [b];
      assert a in Split(s, sep) && b in Split(s, sep);
    }
    if s == a + [sep] + b && sep !in a && sep !in b {
      SplitPart(a, b, sep);
      SplitPart(b, "", sep);
    }
  }

  // Sorting

  /** The order by the first character that differs; a prefix comes first. */
  lemma LeqExactly(a: string, b: string)
    ensures Leq(a, b) <==> a <= b || exists i :: 0 <= i < |a| && i < |b| && a[..i] == b[..i] && a[i] < b[i]
  {
    if a != "" && b != "" {
      assert a == [a[0]] + a[1..] && b == [b[0]] + b[1..];
      if a[0] == b[0] {
        LeqExactly(a[1..], b[1..]);
        LeqTail(a, b);
      } else {
        assert a[..0] == b[..0];
      }
    }
  }

  lemma LeqTail(a: string, b: string)
    requires a != "" && b != "" && a[0] == b[0]
    ensures a <= b <==> a[1..] <= b[1..]
    ensures (exists i :: 0 <= i < |a| && i < |b| && a[..i] == b[..i] && a[i] < b[i])
            <==> exists i :: 0 <= i < |a[1..]| && i < |b[1..]| && a[1..][..i] == b[1..][..i] && a[1..][i] < b[1..][i]
  {
    var a', b' := a[1..], b[1..];
    assert a == [a[0]] + a' && b == [b[0]] + b';
    if i :| 0 <= i < |a| && i < |b| && a[..i] == b[..i] && a[i] < b[i] {
      assert i > 0 && a'[..i - 1] == a[..i][1..] && b'[..i - 1] == b[..i][1..];
      assert a'[i - 1] < b'[i - 1];
    }
    if i :| 0 <= i < |a'| && i < |b'| && a'[..i] == b'[..i] && a'[i] < b'[i] {
      assert a[..i + 1] == [a[0]] + a'[..i] && b[..i + 1] == [b[0]] + b'[..i];
      assert a[i + 1] < b[i + 1];
    }
  }

  lemma LeqTotal(a: string, b: string)
    ensures Leq(a, b) || Leq(b, a)
    ensures Leq(a, b) && Leq(b, a) ==> a == b
  {
    if a != "" && b != "" && a[0] == b[0] {
      LeqTotal(a[1..], b[1..]);
      assert a == [a[0]] + a[1..] && b == [b[0]] + b[1..];
    }
  }

  lemma LeqTransitive(a: string, b: string, c: string)
    requires Leq(a, b) && Leq(b, c)
    ensures Leq(a, c)
  {
    if a != "" && a[0] == b[0] == c[0] {
      LeqTransitive(a[1..], b[1..], c[1..]);
    }
  }

  lemma SortedHeadIsLeast(a: seq<string>, x: string)
    requires Sorted(a) && x in a
    ensures Leq(a[0], x)
  {
    LeqTotal(x, x);
  }

  lemma SortedCons(x: string, xs: seq<string>)
    requires Sorted(xs) && forall y :: y in multiset(xs) ==> Leq(x, y)
    ensures Sorted([x] + xs)
  {
    forall j | 0 <= j < |xs| ensures Leq(x, xs[j]) {
      assert xs[j] in multiset(xs);
    }
  }

  lemma {:induction false} InsertSorts(x: string, xs: seq<string>)
    requires Sorted(xs)
    ensures Sorted(Insert(x, xs)) && multiset(Insert(x, xs)) == multiset(xs) + multiset{x}
  {
    if xs != [] {
      var h, rest := xs[0], xs[1..];
      assert xs == [h] + rest;
      if Leq(x, h) {
        forall y | y in multiset(xs) ensures Leq(x, y) {
          SortedHeadIsLeast(xs, y);
          LeqTransitive(x, h, y);
        }
        SortedCons(x, xs);
      } else {
        LeqTotal(x, h);
        InsertSorts(x, rest);
        forall y | y in multiset(Insert(x, rest)) ensures Leq(h, y) {
          if y != x {
            SortedHeadIsLeast(xs, y);
          }
        }
        SortedCons(h, Insert(x, rest));
      }
    }
  }

  lemma {:induction false} SortSorts(xs: seq<string>)
    ensures Sorted(Sort(xs)) && multiset(Sort(xs)) == multiset(xs)
  {
    if xs != [] {
      SortSorts(xs[1..]);
      InsertSorts(xs[0], Sort(xs[1..]));
      assert xs == [xs[0]] + xs[1..];
    }
  }

  lemma DropHead(a: seq<string>)
    requires a != []
    ensures multiset(a[1..]) == multiset(a) - multiset{a[0]}
    ensures Sorted(a) ==> Sorted(a[1..])
  {
    assert a == [a[0]] + a[1..];
  }

  lemma HeadsAgree(a: seq<string>, b: seq<string>)
    requires Sorted(a) && Sorted(b) && multiset(a) == multiset(b) && a != [] && b != []
    ensures a[0] == b[0]
  {
    assert a[0] in multiset(b);
    assert b[0] in multiset(a);
    SortedHeadIsLeast(a, b[0]);
    SortedHeadIsLeast(b, a[0]);
    LeqTotal(a[0], b[0]);
  }

  /** Two sorted arrangements of the same strings are the same list. */
  lemma {:induction false} SortedIsUnique(a: seq<string>, b: seq<string>)
    requires Sorted(a) && Sorted(b) && multiset(a) == multiset(b)
    ensures a == b
  {
    if a == [] {
      assert |multiset(b)| == 0;
    } else {
      assert b != [] by {
        assert a[0] in multiset(b);
      }
      HeadsAgree(a, b);
      DropHead(a);
      DropHead(b);
      SortedIsUnique(a[1..], b[1..]);
      assert a == [a[0]] + a[1..] && b == [b[0]] + b[1..];
    }
  }

  /** The output of `Sort` depends on which strings are listed, not on their order. */
  lemma SortIgnoresOrder(a: seq<string>, b: seq<string>)
    requires multiset(a) == multiset(b)
    ensures Sort(a) == Sort(b)
  {
    SortSorts(a);
    SortSorts(b);
    SortedIsUnique(Sort(a), Sort(b));
  }
}

/** Shared vocabulary of the model: an Option type for JavaScript's
    `undefined`/`null`, and the handful of JavaScript string operations the
    modeller relies on (`startsWith`, `endsWith`, `includes`, `indexOf`,
    `toLowerCase`, `trim`, `split`, `replace`, number-to-string).
    Strings are sequences of characters; the empty string plays the role of
    a falsy (absent) string value throughout the model. */
module Common {

  datatype Option<+T> = None | Some(value: T) {
    /** The encapsulated value, or `default` for None (JavaScript's `x || d`
        when `x` may only be absent, not falsy). */
    function GetOr(default: T): T {
      match this
      case Some(v) => v
      case None => default
    }
  }

  /** A value or the message of the error the source would throw. */
  datatype Result<+T> = Ok(value: T) | Err(error: string)

  /** JavaScript truthiness of a string value. */
  predicate Truthy(s: string) {
    |s| > 0
  }

  /** A sequence with no members is empty. */
  lemma EmptyIfNoMember<T>(s: seq<T>)
    ensures (forall x :: x !in s) ==> s == []
  {
    if |s| > 0 {
      assert s[0] in s;
    }
  }

  /** A subset is no larger than its superset. */
  lemma SubsetNoLarger<T>(a: set<T>, b: set<T>)
    requires a <= b
    ensures |a| <= |b|
  {
    assert b == a + (b - a);
    assert a * (b - a) == {};
  }

  /** `s.startsWith(p)`. */
  predicate StartsWith(s: string, p: string) {
    |p| <= |s| && s[..|p|] == p
  }

  /** `s.endsWith(p)`. */
  predicate EndsWith(s: string, p: string) {
    |p| <= |s| && s[|s| - |p|..] == p
  }

  /** `s.includes(sub)`: some suffix of `s` starts with `sub`. */
  predicate Contains(s: string, sub: string)
    decreases |s|
  {
    StartsWith(s, sub) || (|s| > 0 && Contains(s[1..], sub))
  }

  /** `s.indexOf(sub)`: the first position at which `sub` occurs. */
  function IndexOf(s: string, sub: string): (r: Option<nat>)
    ensures r.Some? ==> r.value + |sub| <= |s| && StartsWith(s[r.value..], sub)
    ensures r.Some? ==> forall j :: 0 <= j < r.value ==> !StartsWith(s[j..], sub)
    ensures r.None? <==> !Contains(s, sub)
    decreases |s|
  {
    if StartsWith(s, sub) then Some(0)
    else if |s| == 0 then None
    else
      match IndexOf(s[1..], sub)
      case None => None
      case Some(i) =>
        assert forall j :: 1 <= j <= i ==> s[j..] == s[1..][j - 1..];
        assert s[i + 1..] == s[1..][i..];
        Some(i + 1)
  }

  lemma ContainsAt(s: string, sub: string, i: nat)
    requires i + |sub| <= |s| && s[i..i + |sub|] == sub
    ensures Contains(s, sub)
    decreases i
  {
    if i > 0 {
      assert s[1..][i - 1..i - 1 + |sub|] == sub;
      ContainsAt(s[1..], sub, i - 1);
    }
  }

  /** An occurrence of `sub` at position `i`, when there is one, makes
      `s` contain `sub`. */
  lemma OccurrenceContained(s: string, sub: string, i: nat)
    ensures i + |sub| <= |s| && s[i..i + |sub|] == sub ==> Contains(s, sub)
  {
    if i + |sub| <= |s| && s[i..i + |sub|] == sub {
      ContainsAt(s, sub, i);
    }
  }

  /** `s.split(sep)[0]` for a non-empty separator: the text before the
      first occurrence, or all of `s`. */
  function SplitHead(s: string, sep: string): (r: string)
    requires |sep| > 0
    ensures StartsWith(s, r)
    ensures !Contains(s, sep) ==> r == s
    ensures Contains(s, sep) ==> StartsWith(s[|r|..], sep) && |r| + |sep| <= |s|
  {
    match IndexOf(s, sep)
    case None => s
    case Some(i) => s[..i]
  }

  /** Single-character lower-casing as `toLowerCase` performs it on ASCII
      and on the Latin-1 supplement (U+00C0..U+00DE except U+00D7). */
  function LowerChar(c: char): (r: char)
  {
    if 'A' <= c <= 'Z' then (c as int + 32) as char
    else if '\U{00C0}' <= c <= '\U{00DE}' && c != '\U{00D7}' then (c as int + 32) as char
    else c
  }

  /** `s.toLowerCase()`. */
  function ToLower(s: string): (r: string)
    ensures |r| == |s|
  {
    seq(|s|, i requires 0 <= i < |s| => LowerChar(s[i]))
  }

  /** Lower-casing twice is lower-casing once. */
  lemma ToLowerIdempotent(s: string)
    ensures ToLower(ToLower(s)) == ToLower(s)
  {
    forall i | 0 <= i < |s| ensures LowerChar(LowerChar(s[i])) == LowerChar(s[i]) { }
  }

  /** A text that contains `sub` contains it in lower case once both are
      lower-cased. */
  lemma {:induction false} ContainsLower(s: string, sub: string)
    requires Contains(s, sub)
    ensures Contains(ToLower(s), ToLower(sub))
    decreases |s|
  {
    if StartsWith(s, sub) {
      assert ToLower(s)[..|sub|] == ToLower(sub);
    } else {
      ContainsLower(s[1..], sub);
      assert ToLower(s)[1..] == ToLower(s[1..]);
    }
  }

  /** The characters `String.prototype.trim` removes: WhiteSpace and
      LineTerminator of ECMA-262 (section 12.2 and 12.3). */
  predicate IsSpace(c: char) {
    c == ' ' || c == '\t' || c == '\n' || c == '\r' || c == '\U{000B}' || c == '\U{000C}'
    || c == '\U{00A0}' || c == '\U{1680}' || ('\U{2000}' <= c <= '\U{200A}')
    || c == '\U{2028}' || c == '\U{2029}' || c == '\U{202F}' || c == '\U{205F}'
    || c == '\U{3000}' || c == '\U{FEFF}'
  }

  function TrimStart(s: string): (r: string)
    ensures |r| <= |s| && r == s[|s| - |r|..]
    ensures |r| > 0 ==> !IsSpace(r[0])
    decreases |s|
  {
    if |s| > 0 && IsSpace(s[0]) then TrimStart(s[1..]) else s
  }

  function TrimEnd(s: string): (r: string)
    ensures |r| <= |s| && r == s[..|r|]
    ensures |r| > 0 ==> !IsSpace(r[|r| - 1])
    decreases |s|
  {
    if |s| > 0 && IsSpace(s[|s| - 1]) then TrimEnd(s[..|s| - 1]) else s
  }

  /** `trimStart` removes white space only. */
  lemma {:induction false} TrimStartRemovesSpace(s: string)
    ensures forall i :: 0 <= i < |s| - |TrimStart(s)| ==> IsSpace(s[i])
    decreases |s|
  {
    if |s| > 0 && IsSpace(s[0]) {
      TrimStartRemovesSpace(s[1..]);
    }
  }

  /** `trimEnd` removes white space only. */
  lemma {:induction false} TrimEndRemovesSpace(s: string)
    ensures forall i :: |TrimEnd(s)| <= i < |s| ==> IsSpace(s[i])
    decreases |s|
  {
    if |s| > 0 && IsSpace(s[|s| - 1]) {
      TrimEndRemovesSpace(s[..|s| - 1]);
    }
  }

  /** `s.trim()`: the longest infix of `s` that neither starts nor ends with
      white space. */
  function Trim(s: string): (r: string)
    ensures |r| <= |s|
    ensures |r| > 0 ==> !IsSpace(r[0]) && !IsSpace(r[|r| - 1])
  {
    TrimEnd(TrimStart(s))
  }

  /** Neither end of `s` is white space, so `s.trim() === s`
      (see TrimmedIsFixed). */
  predicate Trimmed(s: string) {
    |s| == 0 || (!IsSpace(s[0]) && !IsSpace(s[|s| - 1]))
  }

  lemma TrimmedIsFixed(s: string)
    ensures Trimmed(s) <==> Trim(s) == s
    ensures Trimmed(Trim(s))
  {
    if Trimmed(s) && |s| > 0 {
      assert TrimStart(s) == s;
      assert TrimEnd(s) == s;
    }
  }

  /** A string is blank (`!s.trim()`) exactly when every character is white
      space. */
  lemma BlankIffAllSpace(s: string)
    ensures Trim(s) == "" <==> forall i :: 0 <= i < |s| ==> IsSpace(s[i])
  {
    var t := TrimStart(s);
    TrimStartRemovesSpace(s);
    TrimEndRemovesSpace(t);
    assert t == s[|s| - |t|..];
  }

  /** An occurrence inside `b` is an occurrence inside `a + b` and `b + a`. */
  lemma ContainsInConcat(a: string, b: string, sub: string)
    requires Contains(b, sub)
    ensures Contains(a + b, sub) && Contains(b + a, sub)
  {
    var i := IndexOf(b, sub).value;
    assert b[i..i + |sub|] == b[i..][..|sub|] == sub;
    assert (a + b)[|a| + i..|a| + i + |sub|] == b[i..i + |sub|];
    ContainsAt(a + b, sub, |a| + i);
    assert (b + a)[i..i + |sub|] == b[i..i + |sub|];
    ContainsAt(b + a, sub, i);
  }

  /** Whatever contains `p + q` contains `p`. */
  lemma ContainsPrefixOf(s: string, p: string, q: string)
    requires Contains(s, p + q)
    ensures Contains(s, p)
  {
    var i := IndexOf(s, p + q).value;
    assert s[i..][..|p + q|] == p + q;
    assert s[i..i + |p|] == s[i..][..|p + q|][..|p|];
    ContainsAt(s, p, i);
  }

  /** Every character of a contained word occurs in the text. */
  lemma ContainsChar(s: string, sub: string, k: nat)
    requires Contains(s, sub) && k < |sub|
    ensures sub[k] in s
  {
    var i := IndexOf(s, sub).value;
    assert s[i..][..|sub|] == sub;
    assert s[i + k] == sub[k];
  }

  /** Text inserted between `p` and `q` cannot break an occurrence of a word
      without the character `q` starts with. */
  lemma ContainsAfterInsert(p: string, n: string, q: string, w: string)
    requires Contains(p + q, w)
    requires |q| > 0 && q[0] !in w
    ensures Contains(p + n + q, w)
  {
    var s := p + q;
    var i := IndexOf(s, w).value;
    assert s[i..i + |w|] == s[i..][..|w|] == w;
    if i + |w| <= |p| {
      assert (p + n + q)[i..i + |w|] == s[i..i + |w|];
      ContainsAt(p + n + q, w, i);
    } else {
      SpanningOccurrence(p, q, w, i);
      assert (p + n + q)[i + |n|..i + |n| + |w|] == s[i..i + |w|];
      ContainsAt(p + n + q, w, i + |n|);
    }
  }

  /** `s.split(c)` for a one-character separator: the pieces between
      successive occurrences of `c`, including empty ones. */
  function Split(s: string, c: char): (r: seq<string>)
    ensures |r| >= 1
    ensures forall k :: 0 <= k < |r| ==> c !in r[k]
    decreases |s|
  {
    match IndexOf(s, [c])
    case None =>
      assert forall i :: 0 <= i < |s| ==> s[i] != c by {
        forall i | 0 <= i < |s| ensures s[i] != c {
          if s[i] == c { ContainsAt(s, [c], i); }
        }
      }
      [s]
    case Some(i) =>
      assert forall j :: 0 <= j < i ==> s[j] != c by {
        forall j | 0 <= j < i ensures s[j] != c {
          assert !StartsWith(s[j..], [c]);
        }
      }
      [s[..i]] + Split(s[i + 1..], c)
  }

  /** Joining pieces that do not contain the separator and splitting again
      gives the pieces back. */
  lemma {:induction false} SplitJoin(pieces: seq<string>, c: char)
    requires |pieces| >= 1
    requires forall k :: 0 <= k < |pieces| ==> c !in pieces[k]
    ensures Split(Join(pieces, c), c) == pieces
    decreases |pieces|
  {
    var s := Join(pieces, c);
    var p := pieces[0];
    if |pieces| == 1 {
      assert !Contains(s, [c]) by { NoCharNotContained(s, c); }
    } else {
      SplitJoin(pieces[1..], c);
      assert s == p + [c] + Join(pieces[1..], c);
      assert s[|p|] == c;
      assert StartsWith(s[|p|..], [c]);
      FirstCharAt(s, c, |p|);
      assert s[..|p|] == p;
      assert s[|p| + 1..] == Join(pieces[1..], c);
    }
  }

  lemma {:induction false} NoCharNotContained(s: string, c: char)
    requires c !in s
    ensures !Contains(s, [c])
    decreases |s|
  {
    if |s| > 0 {
      assert s[0] != c by { assert s[0] in s; }
      assert !StartsWith(s, [c]);
      assert c !in s[1..] by {
        forall x | x in s[1..] ensures x in s {
          var k :| 0 <= k < |s[1..]| && s[1..][k] == x;
          assert s[k + 1] == x;
        }
      }
      NoCharNotContained(s[1..], c);
    }
  }

  /** The first occurrence of a character is found where the prefix before
      it is free of that character. */
  lemma {:induction false} FirstCharAt(s: string, c: char, k: nat)
    requires k < |s| && s[k] == c && c !in s[..k]
    ensures IndexOf(s, [c]) == Some(k)
    decreases k
  {
    if k == 0 {
      assert s[..1] == [c];
    } else {
      assert s[0] == s[..k][0];
      assert s[1..][..k - 1] == s[..k][1..];
      FirstCharAt(s[1..], c, k - 1);
    }
  }

  /** `pieces.join(c)`. */
  function Join(pieces: seq<string>, c: char): string
    decreases |pieces|
  {
    if |pieces| == 0 then ""
    else if |pieces| == 1 then pieces[0]
    else pieces[0] + [c] + Join(pieces[1..], c)
  }

  /** The first separator cuts off the first piece. */
  lemma SplitCons(s: string, c: char, i: nat)
    requires IndexOf(s, [c]) == Some(i)
    ensures Split(s, c) == [s[..i]] + Split(s[i + 1..], c)
    ensures s == s[..i] + [c] + s[i + 1..]
  {
    assert s[i] == c by { assert StartsWith(s[i..], [c]); }
  }

  lemma JoinCons(p: string, rest: seq<string>, c: char)
    requires |rest| >= 1
    ensures Join([p] + rest, c) == p + [c] + Join(rest, c)
  {
    assert ([p] + rest)[1..] == rest;
  }

  /** Splitting and re-joining on the same separator gives back the string. */
  lemma {:induction false} JoinSplit(s: string, c: char)
    ensures Join(Split(s, c), c) == s
    decreases |s|
  {
    match IndexOf(s, [c])
    case None =>
    case Some(i) =>
      SplitCons(s, c, i);
      JoinCons(s[..i], Split(s[i + 1..], c), c);
      JoinSplit(s[i + 1..], c);
  }

  /** `s.replace(pat, rep)` with a string pattern: only the first occurrence
      is replaced. */
  function ReplaceFirst(s: string, pat: string, rep: string): (r: string)
    ensures !Contains(s, pat) ==> r == s
  {
    match IndexOf(s, pat)
    case None => s
    case Some(i) => s[..i] + rep + s[i + |pat|..]
  }

  function DigitChar(d: nat): char
    requires d < 10
  {
    ('0' as int + d) as char
  }

  /** The decimal rendering of a natural number (template literal `${n}`). */
  function NatToString(n: nat): (r: string)
    ensures |r| >= 1
    ensures forall i :: 0 <= i < |r| ==> '0' <= r[i] <= '9'
    ensures n < 10 <==> |r| == 1
  {
    if n < 10 then [DigitChar(n)] else NatToString(n / 10) + [DigitChar(n % 10)]
  }

  /** Distinct numbers render as distinct strings. */
  lemma {:induction false} NatToStringInjective(a: nat, b: nat)
    requires NatToString(a) == NatToString(b)
    ensures a == b
    decreases a
  {
    var sa, sb := NatToString(a), NatToString(b);
    if a >= 10 && b >= 10 {
      assert sa[..|sa| - 1] == NatToString(a / 10);
      assert sb[..|sb| - 1] == NatToString(b / 10);
      NatToStringInjective(a / 10, b / 10);
      assert sa[|sa| - 1] == DigitChar(a % 10);
    }
  }

  /** No duplicates in a sequence. */
  predicate NoDup<T(==)>(s: seq<T>) {
    forall i, j :: 0 <= i < j < |s| ==> s[i] != s[j]
  }

  /** `s.indexOf(x)` on an array: the first position holding `x`. */
  function Position<T(==)>(s: seq<T>, x: T): (r: Option<nat>)
    ensures r.Some? ==> r.value < |s| && s[r.value] == x && x !in s[..r.value]
    ensures r.None? <==> x !in s
    decreases |s|
  {
    if |s| == 0 then None
    else if s[0] == x then Some(0)
    else match Position(s[1..], x)
      case None => None
      case Some(i) =>
        assert s[..i + 1] == [s[0]] + s[1..][..i];
        Some(i + 1)
  }

  /** `s` with the element at `i` taken out (`splice(i, 1)`). */
  function Without<T>(s: seq<T>, i: nat): (r: seq<T>)
    requires i < |s|
    ensures |r| == |s| - 1
    ensures multiset(r) + multiset{s[i]} == multiset(s)
  {
    assert s == s[..i] + [s[i]] + s[i + 1..];
    s[..i] + s[i + 1..]
  }

  /** The element at `from` taken out and put back at `to`, or at the end
      when `to` is past it (`splice(from, 1)`, then `splice(to, 0, x)` or
      `push(x)`). */
  function MoveTo<T>(s: seq<T>, from: nat, to: nat): (r: seq<T>)
    requires from < |s|
    ensures |r| == |s|
    ensures multiset(r) == multiset(s)
    ensures var at := if to < |s| - 1 then to else |s| - 1;
            r[at] == s[from] && Without(r, at) == Without(s, from)
  {
    var rest := Without(s, from);
    var at := if to < |rest| then to else |rest|;
    var r := rest[..at] + [s[from]] + rest[at..];
    assert rest == rest[..at] + rest[at..];
    assert r[at] == s[from];
    assert Without(r, at) == rest;
    r
  }

  /** Moving the element back from where it landed to where it came from
      restores the sequence. */
  lemma MoveBack<T>(s: seq<T>, from: nat, to: nat)
    requires from < |s|
    ensures var at := if to < |s| - 1 then to else |s| - 1;
            MoveTo(MoveTo(s, from, to), at, from) == s
  {
    var at := if to < |s| - 1 then to else |s| - 1;
    var r := MoveTo(s, from, to);
    var rest := Without(s, from);
    assert Without(r, at) == rest && r[at] == s[from];
    assert rest[..from] + [s[from]] + rest[from..] == s;
  }

  /** Moving an element keeps a duplicate-free sequence duplicate-free. */
  lemma PermutationNoDup<T>(a: seq<T>, b: seq<T>)
    requires multiset(a) == multiset(b) && NoDup(a)
    ensures NoDup(b)
  {
    forall i, j | 0 <= i < j < |b|
      ensures b[i] != b[j]
    {
      if b[i] == b[j] {
        assert b == b[..i] + [b[i]] + b[i + 1..j] + [b[j]] + b[j + 1..];
        assert multiset(b)[b[i]] >= 2;
        CountAtMostOne(a, b[i]);
        assert false;
      }
    }
  }

  /** In a duplicate-free sequence every value occurs at most once. */
  lemma {:induction false} CountAtMostOne<T>(a: seq<T>, x: T)
    requires NoDup(a)
    ensures multiset(a)[x] <= 1
    decreases |a|
  {
    if |a| > 0 {
      assert a == [a[0]] + a[1..];
      CountAtMostOne(a[1..], x);
      if a[0] == x {
        assert x !in a[1..];
      }
    }
  }

  /** `a` is obtained from `b` by deleting elements (order kept). */
  predicate IsSubsequence<T(==)>(a: seq<T>, b: seq<T>)
    decreases |b|
  {
    |a| == 0 || (|b| > 0 && ((a[0] == b[0] && IsSubsequence(a[1..], b[1..])) || IsSubsequence(a, b[1..])))
  }

  /** The members of a subsequence are members of the whole. */
  lemma {:induction false} SubsequenceMembers<T>(a: seq<T>, b: seq<T>)
    requires IsSubsequence(a, b)
    ensures forall x :: x in a ==> x in b
    decreases |b|
  {
    if |a| > 0 {
      if a[0] == b[0] && IsSubsequence(a[1..], b[1..]) {
        SubsequenceMembers(a[1..], b[1..]);
        assert forall x :: x in a ==> x == a[0] || x in a[1..];
      } else {
        SubsequenceMembers(a, b[1..]);
      }
    }
  }

  lemma SubsequenceReflexive<T>(s: seq<T>)
    ensures IsSubsequence(s, s)
  {
  }

  /** `s.filter(f)`: the elements satisfying `f`, in their original order. */
  function Filter<T(==,!new)>(s: seq<T>, f: T -> bool): (r: seq<T>)
    ensures |r| <= |s|
    ensures forall x :: x in r <==> x in s && f(x)
    ensures IsSubsequence(r, s)
    ensures (forall i :: 0 <= i < |s| ==> f(s[i])) <==> r == s
    decreases |s|
  {
    if |s| == 0 then []
    else
      var rest := Filter(s[1..], f);
      if f(s[0]) then [s[0]] + rest
      else
        assert s[0] !in rest;
        rest
  }

  /** Filtering a duplicate-free sequence leaves it duplicate-free. */
  lemma {:induction false} FilterNoDup<T(!new)>(s: seq<T>, f: T -> bool)
    requires NoDup(s)
    ensures NoDup(Filter(s, f))
    decreases |s|
  {
    if |s| > 0 {
      assert NoDup(s[1..]) by {
        forall i, j | 0 <= i < j < |s[1..]| ensures s[1..][i] != s[1..][j] {
          assert s[1..][i] == s[i + 1] && s[1..][j] == s[j + 1];
        }
      }
      FilterNoDup(s[1..], f);
      assert s[0] !in s[1..] by {
        forall j | 0 <= j < |s[1..]| ensures s[1..][j] != s[0] { assert s[1..][j] == s[j + 1]; }
      }
      var rest := Filter(s[1..], f);
      if f(s[0]) {
        assert s[0] !in rest;
        forall i, j | 0 <= i < j < |[s[0]] + rest| ensures ([s[0]] + rest)[i] != ([s[0]] + rest)[j] {
          if i == 0 {
            assert ([s[0]] + rest)[j] == rest[j - 1];
          } else {
            assert ([s[0]] + rest)[i] == rest[i - 1] && ([s[0]] + rest)[j] == rest[j - 1];
          }
        }
      }
    }
  }

  /** Filtering twice by the same test is filtering once. */
  lemma FilterIdempotent<T(!new)>(s: seq<T>, f: T -> bool)
    ensures Filter(Filter(s, f), f) == Filter(s, f)
  {
    var r := Filter(s, f);
    assert forall i :: 0 <= i < |r| ==> r[i] in r;
  }

  /** Every element passes a test or fails it: the filters by a test and by
      its negation split the sequence. */
  lemma {:induction false} FilterSplit<T(!new)>(s: seq<T>, f: T -> bool, g: T -> bool)
    requires forall x :: g(x) == !f(x)
    ensures |Filter(s, f)| + |Filter(s, g)| == |s|
    decreases |s|
  {
    if |s| > 0 {
      FilterSplit(s[1..], f, g);
    }
  }

  /** An occurrence of `w` in `p + q` that starts in `p` and ends in `q`
      holds the first character of `q`. */
  lemma SpanningOccurrence(p: string, q: string, w: string, i: nat)
    ensures i < |p| < i + |w| <= |p + q| && (p + q)[i..i + |w|] == w ==> q[0] in w
  {
    if i < |p| < i + |w| <= |p + q| && (p + q)[i..i + |w|] == w {
      assert w[|p| - i] == (p + q)[|p|];
    }
  }

  /** Filtering a concatenation filters each part. */
  lemma {:induction false} FilterConcat<T(!new)>(a: seq<T>, b: seq<T>, f: T -> bool)
    ensures Filter(a + b, f) == Filter(a, f) + Filter(b, f)
    decreases |a|
  {
    if |a| > 0 {
      assert (a + b)[1..] == a[1..] + b;
      FilterConcat(a[1..], b, f);
    } else {
      assert a + b == b;
    }
  }

  /** The filters by a test and by its negation together hold every
      element exactly as often as the sequence does. */
  lemma {:induction false} FilterMultiset<T(!new)>(s: seq<T>, f: T -> bool, g: T -> bool)
    requires forall x :: g(x) == !f(x)
    ensures multiset(Filter(s, f)) + multiset(Filter(s, g)) == multiset(s)
    decreases |s|
  {
    if |s| > 0 {
      FilterMultiset(s[1..], f, g);
      assert s == [s[0]] + s[1..];
    }
  }

  /** Filters by tests that agree everywhere are equal. */
  lemma {:induction false} FilterSameTest<T(!new)>(s: seq<T>, f: T -> bool, g: T -> bool)
    requires forall x :: f(x) == g(x)
    ensures Filter(s, f) == Filter(s, g)
    decreases |s|
  {
    if |s| > 0 {
      FilterSameTest(s[1..], f, g);
    }
  }

  /** Some element of `s` has key `k`. */
  predicate HasKey<T(==)>(s: seq<T>, key: T -> string, k: string) {
    exists y :: y in s && key(y) == k
  }

  /** Position `i` holds the first element of `s` with its key. */
  predicate FirstWithKey<T>(s: seq<T>, key: T -> string, i: int) {
    0 <= i < |s| && forall j :: 0 <= j < i ==> key(s[j]) != key(s[i])
  }

  /** The loop that keeps the first element per key, skipping keys already
      in `seen`. */
  function DedupFrom<T(==)>(s: seq<T>, key: T -> string, seen: set<string>): (r: seq<T>)
    ensures IsSubsequence(r, s)
    ensures forall i :: 0 <= i < |r| ==> key(r[i]) !in seen
    ensures forall i, j :: 0 <= i < j < |r| ==> key(r[i]) != key(r[j])
    ensures forall x :: x in s ==> key(x) in seen || HasKey(r, key, key(x))
    ensures forall y :: y in r ==> exists i :: FirstWithKey(s, key, i) && s[i] == y
    decreases |s|
  {
    if |s| == 0 then []
    else
      var k := key(s[0]);
      if k in seen then
        var r := DedupFrom(s[1..], key, seen);
        assert forall x :: x in s[1..] ==> x in s;
        FirstShift(s, key, r, seen);
        r
      else
        var rest := DedupFrom(s[1..], key, seen + {k});
        var r := [s[0]] + rest;
        assert FirstWithKey(s, key, 0);
        FirstShift(s, key, rest, seen + {k});
        assert s[0] in r;
        r
  }

  /** A kept element of the tail whose key differs from the head's is the
      first with its key in the whole sequence. */
  lemma FirstShift<T>(s: seq<T>, key: T -> string, r: seq<T>, seen: set<string>)
    requires |s| > 0 && key(s[0]) in seen
    requires forall i :: 0 <= i < |r| ==> key(r[i]) !in seen
    requires forall y :: y in r ==> exists i :: FirstWithKey(s[1..], key, i) && s[1..][i] == y
    ensures forall y :: y in r ==> exists i :: FirstWithKey(s, key, i) && s[i] == y
  {
    forall y | y in r
      ensures exists i :: FirstWithKey(s, key, i) && s[i] == y
    {
      var i :| FirstWithKey(s[1..], key, i) && s[1..][i] == y;
      var k :| 0 <= k < |r| && r[k] == y;
      assert key(y) !in seen;
      assert FirstWithKey(s, key, i + 1);
    }
  }

  /** `dedupe by key`: the first element of each key, in order. */
  function DedupBy<T(==)>(s: seq<T>, key: T -> string): (r: seq<T>)
    ensures IsSubsequence(r, s)
    ensures forall i, j :: 0 <= i < j < |r| ==> key(r[i]) != key(r[j])
    ensures forall x :: x in s ==> HasKey(r, key, key(x))
    ensures forall y :: y in r ==> exists i :: FirstWithKey(s, key, i) && s[i] == y
  {
    DedupFrom(s, key, {})
  }
}

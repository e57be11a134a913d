/** String operations the serializers and filters rely on: ASCII case folding
    (the `lower()` and `i...` lookups), substring search, Python's `str.split`
    with a separator, and the decimal `int()` of a query parameter.
 */
module Text {
  import opened Replies

  // ---------------------------------------------------------------- case

  /** Folds one ASCII capital to lower case; every other character is kept. */
  function LowerChar(c: char): (d: char)
    ensures !('A' <= d <= 'Z')
    ensures d == c || ('A' <= c <= 'Z' && d as int == c as int + 32)
  {
    if 'A' <= c <= 'Z' then (c as int + 32) as char else c
  }

  function Lower(s: string): (r: string)
    ensures |r| == |s|
    ensures forall i | 0 <= i < |r| :: r[i] == LowerChar(s[i])
  {
    seq(|s|, i requires 0 <= i < |s| => LowerChar(s[i]))
  }

  /** Folding twice is folding once. */
  lemma LowerIdempotent(s: string)
    ensures Lower(Lower(s)) == Lower(s)
  {
    var once := Lower(s);
    assert forall i | 0 <= i < |once| :: LowerChar(once[i]) == once[i];
  }

  // ------------------------------------------------------------- search

  /** `q` occurs in `s` starting at index `i`. */
  predicate OccursAt(s: string, q: string, i: int) {
    0 <= i && i + |q| <= |s| && s[i..i + |q|] == q
  }

  /** Python's `q in s`. */
  predicate Contains(s: string, q: string) {
    exists i | 0 <= i <= |s| - |q| :: OccursAt(s, q, i)
  }

  /** Python's `s.startswith(p)`. */
  predicate StartsWith(s: string, p: string) {
    OccursAt(s, p, 0)
  }

  /** A prefix is in particular a substring. */
  lemma StartsWithContains(s: string, p: string)
    requires StartsWith(s, p)
    ensures Contains(s, p)
  {
  }

  /** The first occurrence of `q` in `s` at or after index `k`. */
  function IndexFrom(s: string, q: string, k: nat): (r: Option<nat>)
    ensures r.Some? ==> k <= r.value && OccursAt(s, q, r.value)
    ensures r.Some? ==> forall j | k <= j < r.value :: !OccursAt(s, q, j)
    ensures r.None? ==> forall j | k <= j :: !OccursAt(s, q, j)
    decreases |s| - k
  {
    if k + |q| > |s| then None
    else if s[k..k + |q|] == q then Some(k)
    else IndexFrom(s, q, k + 1)
  }

  /** `IndexFrom` finds an occurrence preceded by no other one. */
  lemma {:induction false} IndexFromFirst(s: string, q: string, k: nat, i: nat)
    requires k <= i && OccursAt(s, q, i)
    requires forall j | k <= j < i :: !OccursAt(s, q, j)
    ensures IndexFrom(s, q, k) == Some(i)
    decreases i - k
  {
    if k < i {
      assert !OccursAt(s, q, k);
      IndexFromFirst(s, q, k + 1, i);
    }
  }

  // -------------------------------------------------------------- split

  /** Inverse of `Split`: the parts glued back with the separator. */
  function Join(parts: seq<string>, sep: string): string
    requires |parts| > 0
  {
    if |parts| == 1 then parts[0] else parts[0] + sep + Join(parts[1..], sep)
  }

  /** Python's `s.split(sep)` for a non-empty separator: cut at every
      occurrence, scanning left to right. */
  function Split(s: string, sep: string): (parts: seq<string>)
    requires |sep| > 0
    ensures |parts| > 0
    decreases |s|
  {
    match IndexFrom(s, sep, 0)
    case None => [s]
    case Some(i) => [s[..i]] + Split(s[i + |sep|..], sep)
  }

  /** Splitting loses nothing: joining the parts gives the input back. */
  lemma {:induction false} SplitJoin(s: string, sep: string)
    requires |sep| > 0
    ensures Join(Split(s, sep), sep) == s
    decreases |s|
  {
    match IndexFrom(s, sep, 0)
    case None =>
    case Some(i) =>
      var rest := s[i + |sep|..];
      SplitJoin(rest, sep);
      SplitStep(s, sep, i);
      JoinCons(s[..i], Split(rest, sep), sep);
      OccurrenceCut(s, sep, i);
  }

  /** One step of `Split`: the text before the first separator, then the
      split of what follows it. */
  lemma SplitStep(s: string, sep: string, i: nat)
    requires |sep| > 0 && IndexFrom(s, sep, 0) == Some(i)
    ensures i + |sep| <= |s|
    ensures Split(s, sep) == [s[..i]] + Split(s[i + |sep|..], sep)
  {
    var r := IndexFrom(s, sep, 0);
    assert r == Some(i);
    assert OccursAt(s, sep, i);
  }

  lemma JoinCons(head: string, tail: seq<string>, sep: string)
    requires |tail| > 0
    ensures Join([head] + tail, sep) == head + sep + Join(tail, sep)
  {
    assert ([head] + tail)[1..] == tail;
  }

  /** An occurrence cuts the text into what precedes it, the separator and
      what follows. */
  lemma OccurrenceCut(s: string, sep: string, i: nat)
    requires OccursAt(s, sep, i)
    ensures s == s[..i] + sep + s[i + |sep|..]
  {
    assert s == s[..i] + s[i..i + |sep|] + s[i + |sep|..];
  }

  /** No part of a split still contains the separator. */
  lemma {:induction false} SplitPartsFree(s: string, sep: string)
    requires |sep| > 0
    ensures forall k | 0 <= k < |Split(s, sep)| :: !Contains(Split(s, sep)[k], sep)
    decreases |s|
  {
    match IndexFrom(s, sep, 0)
    case None =>
      assert Split(s, sep) == [s];
    case Some(i) =>
      var head := s[..i];
      forall j | 0 <= j && j + |sep| <= i
        ensures !OccursAt(head, sep, j)
      {
        assert head[j..j + |sep|] == s[j..j + |sep|];
        assert !OccursAt(s, sep, j);
      }
      var rest := s[i + |sep|..];
      SplitPartsFree(rest, sep);
      var parts := Split(s, sep);
      assert parts == [head] + Split(rest, sep);
      forall k | 0 <= k < |parts|
        ensures !Contains(parts[k], sep)
      {
        if k > 0 {
          assert parts[k] == Split(rest, sep)[k - 1];
        }
      }
  }

  /** The last part is what follows the last separator. */
  lemma {:induction false} JoinLast(parts: seq<string>, sep: string)
    requires |parts| > 1
    ensures Join(parts, sep) == Join(parts[..|parts| - 1], sep) + sep + parts[|parts| - 1]
    decreases |parts|
  {
    if |parts| > 2 {
      var tail := parts[1..];
      JoinLast(tail, sep);
      assert tail[..|tail| - 1] == parts[..|parts| - 1][1..];
    }
  }

  /** `s.split(sep)[-1]` */
  function LastPart(s: string, sep: string): string
    requires |sep| > 0
  {
    var parts := Split(s, sep);
    parts[|parts| - 1]
  }

  /** The text after the last `sep` of `s`, or all of `s` when it has none:
      the result holds no `sep`, ends `s`, and is preceded in `s` by `sep`
      unless it is the whole of `s`. */
  lemma LastPartAfterSeparator(s: string, sep: string)
    requires |sep| > 0
    ensures !Contains(LastPart(s, sep), sep)
    ensures exists before :: s == before + LastPart(s, sep) && (before == [] || (|before| >= |sep| && before[|before| - |sep|..] == sep))
    ensures !Contains(s, sep) ==> LastPart(s, sep) == s
  {
    var parts := Split(s, sep);
    var last := parts[|parts| - 1];
    SplitJoin(s, sep);
    SplitPartsFree(s, sep);
    if |parts| == 1 {
      assert s == [] + last;
    } else {
      JoinLast(parts, sep);
      var before := Join(parts[..|parts| - 1], sep) + sep;
      assert s == before + last;
      assert before[|before| - |sep|..] == sep;
      assert OccursAt(s, sep, |before| - |sep|) by {
        assert s[|before| - |sep|..|before|] == before[|before| - |sep|..];
      }
    }
  }

  // ------------------------------------------------------------- base64

  /** The alphabet of `base64.b64decode` without `altchars`. */
  predicate IsBase64Char(c: char) {
    ('A' <= c <= 'Z') || ('a' <= c <= 'z') || ('0' <= c <= '9') || c == '+' || c == '/'
  }

  /** The scan of binascii's non-strict decoder: characters outside the
      alphabet are skipped; a `=` that completes a quad holding at least two
      data characters ends the input; at the end the data characters must
      fill whole quads. `quad` counts the data characters of the current
      quad, `pads` the `=` counted since the last data character. */
  function Base64From(s: string, quad: nat, pads: nat): bool
    requires quad < 4
    decreases |s|
  {
    if |s| == 0 then quad == 0
    else if s[0] == '=' then
      if quad >= 2 && quad + pads + 1 >= 4 then true
      else Base64From(s[1..], quad, if quad >= 2 then pads + 1 else pads)
    else if IsBase64Char(s[0]) then Base64From(s[1..], (quad + 1) % 4, 0)
    else Base64From(s[1..], quad, pads)
  }

  /** `base64.b64decode(s)` returns rather than raises: the text is ASCII
      and its data characters are correctly padded. */
  predicate Base64Decodes(s: string) {
    (forall i | 0 <= i < |s| :: s[i] as int < 128) && Base64From(s, 0, 0)
  }

  /** Without padding, text of alphabet characters decodes exactly when it
      fills whole quads. */
  lemma {:induction false} Base64DataOnly(s: string, quad: nat, pads: nat)
    requires quad < 4 && forall i | 0 <= i < |s| :: IsBase64Char(s[i])
    ensures Base64From(s, quad, pads) <==> (quad + |s|) % 4 == 0
    decreases |s|
  {
    if |s| > 0 {
      assert IsBase64Char(s[0]);
      Base64DataOnly(s[1..], (quad + 1) % 4, 0);
    }
  }

  // ------------------------------------------------------------ integers

  predicate IsDigit(c: char) {
    '0' <= c <= '9'
  }

  predicate AllDigits(s: string) {
    forall i | 0 <= i < |s| :: IsDigit(s[i])
  }

  /** The value of a string of decimal digits, most significant first. */
  function DigitsValue(s: string): nat
    requires AllDigits(s)
    decreases |s|
  {
    if |s| == 0 then 0 else DigitsValue(s[..|s| - 1]) * 10 + (s[|s| - 1] as int - '0' as int)
  }

  /** Python's `int(s)` restricted to an optional sign followed by one or
      more ASCII digits; anything else is not an integer. */
  function ParseInt(s: string): (r: Option<int>)
    ensures r.Some? <==> (|s| > 0 && AllDigits(s)) || (|s| > 1 && (s[0] == '-' || s[0] == '+') && AllDigits(s[1..]))
  {
    if |s| > 1 && (s[0] == '-' || s[0] == '+') && AllDigits(s[1..]) then
      var magnitude: int := DigitsValue(s[1..]);
      Some(if s[0] == '-' then -magnitude else magnitude)
    else if |s| > 0 && AllDigits(s) then Some(DigitsValue(s))
    else None
  }

  /** `str(n)` of a natural number. */
  function ShowNat(n: nat): (s: string)
    ensures |s| > 0 && AllDigits(s)
    decreases n
  {
    var d := [(n % 10 + '0' as int) as char];
    if n < 10 then d else ShowNat(n / 10) + d
  }

  lemma {:induction false} DigitsValueShowNat(n: nat)
    ensures DigitsValue(ShowNat(n)) == n
    decreases n
  {
    var s := ShowNat(n);
    if n >= 10 {
      DigitsValueShowNat(n / 10);
      assert s[..|s| - 1] == ShowNat(n / 10);
    }
  }

  /** Reading back a printed natural number gives it back. */
  lemma ParseShowNat(n: nat)
    ensures ParseInt(ShowNat(n)) == Some(n)
    ensures ParseInt("-" + ShowNat(n)) == Some(-(n as int))
  {
    DigitsValueShowNat(n);
    var s := ShowNat(n);
    assert s[0] != '-' && s[0] != '+';
    assert ("-" + s)[1..] == s;
  }
}

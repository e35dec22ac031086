/** The field criteria of CronTimer::matchCriteria: a criterion string is classified,
    in the order the source tries its regular expressions, and then evaluated. */
module Criteria {
  import opened Results

  /** A classified criterion string. */
  datatype Criterion =
    | Any                                  // "*"
    | Range(lo: nat, hi: nat)              // "A-B"
    | List(values: seq<nat>)               // "A,B,C" or a bare "A"
    | Every(n: nat)                        // "/N"
    | Offset(aIsLiteralZero: bool, n: nat) // "A/N": only whether A is the text "0" matters
    | Invalid                              // anything else

  predicate IsDigit(ch: char) { '0' <= ch <= '9' }

  /** A run matched by the PCRE class `\d+`. */
  predicate IsDigits(s: string) {
    |s| > 0 && forall i :: 0 <= i < |s| ==> IsDigit(s[i])
  }

  /** The integer PHP uses when a digit string takes part in arithmetic or a comparison. */
  function DigitsValue(s: string): nat
    requires IsDigits(s)
    decreases |s|
  {
    assert IsDigit(s[|s| - 1]);
    var last := s[|s| - 1] as int - '0' as int;
    if |s| == 1 then last else 10 * DigitsValue(s[..|s| - 1]) + last
  }

  /** The position of the first `ch` in `s`, or `|s|` when there is none. */
  function IndexOf(s: string, ch: char): (k: nat)
    ensures k <= |s|
    ensures forall j :: 0 <= j < k ==> s[j] != ch
    ensures k < |s| ==> s[k] == ch
  {
    if |s| == 0 then 0 else if s[0] == ch then 0 else 1 + IndexOf(s[1..], ch)
  }

  /** PHP's implode(sep, pieces). */
  function Join(pieces: seq<string>, sep: char): string
    requires |pieces| > 0
  {
    if |pieces| == 1 then pieces[0] else pieces[0] + [sep] + Join(pieces[1..], sep)
  }

  /** PHP's explode(sep, s): the pieces between the separators, at least one. */
  function Split(s: string, sep: char): (pieces: seq<string>)
    ensures |pieces| > 0
    decreases |s|
  {
    var k := IndexOf(s, sep);
    if k == |s| then [s] else [s[..k]] + Split(s[k + 1..], sep)
  }

  /** Joining the pieces of explode with the separator gives the string back, and no piece
      holds the separator. */
  lemma {:induction false} JoinSplit(s: string, sep: char)
    ensures Join(Split(s, sep), sep) == s
    ensures forall p | p in Split(s, sep) :: sep !in p
    decreases |s|
  {
    var k := IndexOf(s, sep);
    if k < |s| {
      var rest := Split(s[k + 1..], sep);
      JoinSplit(s[k + 1..], sep);
      assert Split(s, sep) == [s[..k]] + rest;
      assert ([s[..k]] + rest)[1..] == rest;
      assert s == s[..k] + [sep] + s[k + 1..];
    }
  }

  /** The part of a subject that a pattern anchored with `^…$` must match: PCRE's `$`
      (without the D modifier) also matches just before one final line feed. */
  function SubjectBody(s: string): string {
    if |s| > 0 && s[|s| - 1] == '\n' then s[..|s| - 1] else s
  }

  /** `^(\d+)-(\d+)$` */
  predicate IsRangeForm(b: string) {
    var k := IndexOf(b, '-');
    k < |b| && IsDigits(b[..k]) && IsDigits(b[k + 1..])
  }

  /** `^(\d+(?:,\d+)*)$` */
  predicate IsListForm(b: string) {
    forall piece | piece in Split(b, ',') :: IsDigits(piece)
  }

  /** `^\/(\d+)$` */
  predicate IsEveryForm(b: string) {
    |b| > 0 && b[0] == '/' && IsDigits(b[1..])
  }

  /** `^(\d+)\/(\d+)$` */
  predicate IsOffsetForm(b: string) {
    var k := IndexOf(b, '/');
    k < |b| && IsDigits(b[..k]) && IsDigits(b[k + 1..])
  }

  function ValuesOf(pieces: seq<string>): seq<nat>
    requires forall piece | piece in pieces :: IsDigits(piece)
  {
    seq(|pieces|, i requires 0 <= i < |pieces| && IsDigits(pieces[i]) => DigitsValue(pieces[i]))
  }

  /** The shape every criterion of a numeric branch has: a non-empty string of digits, `,`,
      `-` and `/` that ends in a digit. */
  predicate Recognisable(b: string) {
    |b| > 0 && IsDigit(b[|b| - 1]) &&
    forall i :: 0 <= i < |b| ==> IsDigit(b[i]) || b[i] in ",-/"
  }

  /** Which branch of matchCriteria a criterion string takes, with the captured numbers.
      Only the exact text "*" takes the wildcard branch; RecognisedShape says which strings
      can reach a numeric one. */
  function Classify(criterion: string): (c: Criterion)
    ensures c == Any <==> criterion == "*"
  {
    if criterion == "*" then Any
    else
      var b := SubjectBody(criterion);
      if IsRangeForm(b) then
        var k := IndexOf(b, '-');
        Range(DigitsValue(b[..k]), DigitsValue(b[k + 1..]))
      else if IsListForm(b) then List(ValuesOf(Split(b, ',')))
      else if IsEveryForm(b) then Every(DigitsValue(b[1..]))
      else if IsOffsetForm(b) then
        var k := IndexOf(b, '/');
        Offset(b[..k] == "0", DigitsValue(b[k + 1..]))
      else Invalid
  }

  /** A criterion that takes a numeric branch is, a final line feed aside, a non-empty string
      of digits, `,`, `-` and `/` ending in a digit. */
  lemma RecognisedShape(criterion: string)
    ensures !Classify(criterion).Any? && !Classify(criterion).Invalid? ==>
      Recognisable(SubjectBody(criterion))
  {
    var b := SubjectBody(criterion);
    if criterion == "*" {
    } else if IsRangeForm(b) {
      AroundShape(b, IndexOf(b, '-'), '-');
    } else if IsListForm(b) {
      JoinSplit(b, ',');
      JoinDigits(Split(b, ','));
    } else if IsEveryForm(b) {
      EveryShape(b);
    } else if IsOffsetForm(b) {
      AroundShape(b, IndexOf(b, '/'), '/');
    }
  }

  /** Two digit runs around a separator of a numeric pattern have the recognisable shape. */
  lemma AroundShape(b: string, k: nat, sep: char)
    requires sep in ",-/"
    requires k < |b| && b[k] == sep
    requires IsDigits(b[..k]) && IsDigits(b[k + 1..])
    ensures Recognisable(b)
  {
    AroundSeparator(b, k, sep);
    assert b[|b| - 1] == b[k + 1..][|b| - k - 2];
  }

  /** "/" followed by a digit run has the recognisable shape. */
  lemma EveryShape(b: string)
    requires IsEveryForm(b)
    ensures Recognisable(b)
  {
    assert b[|b| - 1] == b[1..][|b| - 2];
    forall i | 1 <= i < |b| ensures IsDigit(b[i]) {
      assert b[i] == b[1..][i - 1];
    }
  }

  /** A positive multiple of a positive number is at least that number. */
  lemma {:induction false} AtLeastOnce(k: int, n: nat)
    requires k >= 1 && n > 0
    ensures k * n >= n
    decreases k
  {
    if k > 1 {
      AtLeastOnce(k - 1, n);
      assert k * n == (k - 1) * n + n;
    }
  }

  /** A multiple of n leaves no remainder. */
  lemma MultipleRem(q: int, n: nat)
    requires n > 0
    ensures (q * n) % n == 0
  {
    var x := q * n;
    var d, m := x / n, x % n;
    assert (q - d) * n == m;
    if q - d >= 1 {
      AtLeastOnce(q - d, n);
    } else if q - d <= -1 {
      AtLeastOnce(d - q, n);
    }
  }

  /** PHP's `%` for a positive divisor: the remainder of division truncated toward zero,
      which has the sign of `a`. It differs from Dafny's (Euclidean) `%` by `n` exactly when
      `a` is negative and not a multiple of `n`. */
  function PhpRem(a: int, n: nat): (r: int)
    requires n > 0
    ensures r == 0 <==> a % n == 0
    ensures a >= 0 ==> 0 <= r < n
    ensures a < 0 ==> -(n as int) < r <= 0
  {
    var m := a % n;
    if a >= 0 || m == 0 then m else m - n
  }

  /** The conditions that fix PHP's `%` for a positive divisor: a - r is a multiple of n,
      r has the sign of a, and |r| < n. */
  predicate IsTruncatedRemainder(a: int, n: nat, r: int)
    requires n > 0
  {
    (a - r) % n == 0 && (a >= 0 ==> 0 <= r < n) && (a < 0 ==> -(n as int) < r <= 0)
  }

  /** PhpRem is the remainder of truncating division and nothing else. */
  lemma TruncatedRemainder(a: int, n: nat, r: int)
    requires n > 0
    ensures r == PhpRem(a, n) <==> IsTruncatedRemainder(a, n, r)
  {
    PhpRemIsTruncated(a, n);
    if IsTruncatedRemainder(a, n, r) {
      TruncatedRemainderUnique(a, n, r, PhpRem(a, n));
    }
  }

  lemma PhpRemIsTruncated(a: int, n: nat)
    requires n > 0
    ensures IsTruncatedRemainder(a, n, PhpRem(a, n))
  {
    var q, m := a / n, a % n;
    assert a == q * n + m;
    if a >= 0 || m == 0 {
      assert a - PhpRem(a, n) == q * n;
      MultipleRem(q, n);
    } else {
      assert a - PhpRem(a, n) == (q + 1) * n;
      MultipleRem(q + 1, n);
    }
  }

  lemma TruncatedRemainderUnique(a: int, n: nat, r1: int, r2: int)
    requires n > 0
    requires IsTruncatedRemainder(a, n, r1) && IsTruncatedRemainder(a, n, r2)
    ensures r1 == r2
  {
    var q1, q2 := (a - r1) / n, (a - r2) / n;
    assert a - r1 == q1 * n;
    assert a - r2 == q2 * n;
    assert r2 - r1 == (q1 - q2) * n;
    assert -(n as int) < r2 - r1 < n;
    if q1 - q2 >= 1 {
      AtLeastOnce(q1 - q2, n);
    } else if q1 - q2 <= -1 {
      AtLeastOnce(q2 - q1, n);
    }
  }

  /** Criteria whose evaluation divides by zero: "/0", and "A/0" with A other than "0". */
  predicate DividesByZero(c: Criterion) {
    (c.Every? && c.n == 0) || (c.Offset? && !c.aIsLiteralZero && c.n == 0)
  }

  /** Whether `v` satisfies a classified criterion (the bodies of the branches of matchCriteria). */
  function Matches(v: int, c: Criterion): (r: Outcome<bool>)
    ensures r == ModuloByZero <==> DividesByZero(c)
  {
    match c
    case Any => Ok(true)
    case Range(lo, hi) => Ok(lo <= v && v <= hi)
    case List(values) => Ok(v in values)
    case Every(n) => if n == 0 then ModuloByZero else Ok(PhpRem(v, n) == 0)
    case Offset(aIsLiteralZero, n) =>
      if aIsLiteralZero then Ok(true)
      else if n == 0 then ModuloByZero
      else Ok(PhpRem(v, n) == 0)
    case Invalid => Ok(false)
  }

  /** CronTimer::matchCriteria($value, $criterion): it raises exactly for a zero divisor
      that is evaluated, and it holds only for "*" or a criterion of the recognisable shape. */
  function MatchCriteria(value: int, criterion: string): (r: Outcome<bool>)
    ensures r == ModuloByZero <==> DividesByZero(Classify(criterion))
  {
    Matches(value, Classify(criterion))
  }

  // ---------------------------------------------------------------------------
  // Which strings take which branch

  lemma IndexOfAfter(x: string, ch: char, y: string)
    requires ch !in x
    ensures IndexOf(x + [ch] + y, ch) == |x|
  {
    var s := x + [ch] + y;
    assert s[|x|] == ch;
    forall j | 0 <= j < |x| ensures s[j] != ch {
      assert s[j] == x[j];
    }
  }

  /** Splitting at a first separator yields the part before it, then the split of the rest. */
  lemma SplitAfter(x: string, sep: char, y: string)
    requires sep !in x
    ensures Split(x + [sep] + y, sep) == [x] + Split(y, sep)
  {
    var s := x + [sep] + y;
    IndexOfAfter(x, sep, y);
    assert s[..|x|] == x;
    assert s[|x| + 1..] == y;
  }

  lemma {:induction false} SplitJoin(pieces: seq<string>, sep: char)
    requires |pieces| > 0
    requires forall p | p in pieces :: sep !in p
    ensures Split(Join(pieces, sep), sep) == pieces
    decreases |pieces|
  {
    var p := pieces[0];
    assert sep !in p by { assert p in pieces; }
    if |pieces| == 1 {
      assert IndexOf(p, sep) == |p|;
    } else {
      var tail := pieces[1..];
      assert forall q | q in tail :: q in pieces;
      SplitJoin(tail, sep);
      SplitAfter(p, sep, Join(tail, sep));
      assert pieces == [p] + tail;
    }
  }

  /** Every character of Join(pieces, ',') over digit runs is a digit or a comma, and the last one is a digit. */
  lemma JoinDigits(pieces: seq<string>)
    requires |pieces| > 0
    requires forall p | p in pieces :: IsDigits(p)
    ensures |Join(pieces, ',')| > 0
    ensures forall i :: 0 <= i < |Join(pieces, ',')| ==> IsDigit(Join(pieces, ',')[i]) || Join(pieces, ',')[i] == ','
    ensures IsDigit(Join(pieces, ',')[|Join(pieces, ',')| - 1])
    decreases |pieces|
  {
    if |pieces| > 1 {
      JoinDigits(pieces[1..]);
      var s := Join(pieces, ',');
      var p, rest := pieces[0], Join(pieces[1..], ',');
      assert s == p + [','] + rest;
      forall i | 0 <= i < |s| ensures IsDigit(s[i]) || s[i] == ',' {
        if i < |p| { assert s[i] == p[i]; }
        else if i > |p| { assert s[i] == rest[i - |p| - 1]; }
      }
      assert s[|s| - 1] == rest[|rest| - 1];
    } else {
      assert pieces[0] in pieces;
    }
  }

  /** Two digit runs around one separator: every character is a digit or that separator. */
  lemma AroundSeparator(b: string, k: nat, sep: char)
    requires k < |b| && b[k] == sep
    requires IsDigits(b[..k]) && IsDigits(b[k + 1..])
    ensures forall i :: 0 <= i < |b| ==> IsDigit(b[i]) || b[i] == sep
  {
    forall i | 0 <= i < |b| ensures IsDigit(b[i]) || b[i] == sep {
      if i < k { assert b[i] == b[..k][i]; }
      else if i > k { assert b[i] == b[k + 1..][i - k - 1]; }
    }
  }

  /** A string with none of the separators is a single piece. */
  lemma SplitWithout(b: string, sep: char)
    requires forall i :: 0 <= i < |b| ==> b[i] != sep
    ensures Split(b, sep) == [b]
  {
  }

  lemma {:induction false} ClassifyRange(x: string, y: string)
    requires IsDigits(x) && IsDigits(y)
    ensures Classify(x + "-" + y) == Range(DigitsValue(x), DigitsValue(y))
  {
    var s := x + "-" + y;
    assert s[|s| - 1] == y[|y| - 1];
    assert SubjectBody(s) == s;
    assert s != "*" by { assert |s| >= 3; }
    IndexOfAfter(x, '-', y);
    assert s[..|x|] == x;
    assert s[|x| + 1..] == y;
  }

  lemma {:induction false} ClassifyList(pieces: seq<string>)
    requires |pieces| > 0
    requires forall p | p in pieces :: IsDigits(p)
    ensures Classify(Join(pieces, ',')) == List(ValuesOf(pieces))
  {
    var s := Join(pieces, ',');
    JoinDigits(pieces);
    assert SubjectBody(s) == s;
    assert s != "*" by { assert s[0] != '*'; }
    assert IndexOf(s, '-') == |s|;
    forall p | p in pieces ensures ',' !in p {
      assert forall i | 0 <= i < |p| :: IsDigit(p[i]);
    }
    SplitJoin(pieces, ',');
  }

  lemma {:induction false} ClassifyEvery(x: string)
    requires IsDigits(x)
    ensures Classify("/" + x) == Every(DigitsValue(x))
  {
    var s := "/" + x;
    assert s[|s| - 1] == x[|x| - 1];
    assert SubjectBody(s) == s;
    assert s != "*" by { assert s[0] == '/'; }
    forall i | 0 <= i < |s| ensures s[i] != '-' && s[i] != ',' {
      if i > 0 { assert s[i] == x[i - 1]; }
    }
    assert IndexOf(s, '-') == |s|;
    SplitWithout(s, ',');
    assert !IsDigits(s) by { assert !IsDigit(s[0]); }
    assert s[1..] == x;
  }

  lemma {:induction false} ClassifyOffset(x: string, y: string)
    requires IsDigits(x) && IsDigits(y)
    ensures Classify(x + "/" + y) == Offset(x == "0", DigitsValue(y))
  {
    var s := x + "/" + y;
    assert s[|s| - 1] == y[|y| - 1];
    assert SubjectBody(s) == s;
    assert s != "*" by { assert s[0] == x[0]; }
    AroundSeparator(s, |x|, '/') by {
      assert s[..|x|] == x;
      assert s[|x| + 1..] == y;
    }
    assert IndexOf(s, '-') == |s|;
    SplitWithout(s, ',');
    assert !IsDigits(s) by { assert !IsDigit(s[|x|]); }
    assert s[0] != '/' by { assert s[0] == x[0]; }
    IndexOfAfter(x, '/', y);
    assert s[..|x|] == x;
    assert s[|x| + 1..] == y;
  }

  // ---------------------------------------------------------------------------
  // What each form of criterion matches

  /** "*" matches every value (source lines 101-103). */
  lemma StarCriterion(v: int)
    ensures MatchCriteria(v, "*") == Ok(true)
  {
  }

  /** "A-B" holds exactly for A <= v <= B; so nothing matches when A > B. */
  lemma RangeCriterion(v: int, a: string, b: string)
    requires IsDigits(a) && IsDigits(b)
    ensures MatchCriteria(v, a + "-" + b) == Ok(DigitsValue(a) <= v <= DigitsValue(b))
  {
    ClassifyRange(a, b);
  }

  /** A comma list (or a bare number) holds exactly when v equals one of the listed numbers. */
  lemma ListCriterion(v: int, pieces: seq<string>)
    requires |pieces| > 0
    requires forall p | p in pieces :: IsDigits(p)
    ensures MatchCriteria(v, Join(pieces, ',')) == Ok(exists p :: p in pieces && DigitsValue(p) == v)
  {
    ClassifyList(pieces);
    var values := ValuesOf(pieces);
    if v in values {
      var i :| 0 <= i < |values| && values[i] == v;
      assert pieces[i] in pieces && DigitsValue(pieces[i]) == v;
    }
    if exists p :: p in pieces && DigitsValue(p) == v {
      var p :| p in pieces && DigitsValue(p) == v;
      var i :| 0 <= i < |pieces| && pieces[i] == p;
      assert values[i] == v;
    }
  }

  /** A bare number matches exactly the value it denotes. */
  lemma BareNumberCriterion(v: int, n: string)
    requires IsDigits(n)
    ensures MatchCriteria(v, n) == Ok(v == DigitsValue(n))
  {
    assert Join([n], ',') == n;
    ListCriterion(v, [n]);
    assert n in [n];
  }

  /** Reordering or repeating the entries of a list criterion does not change what it matches. */
  lemma ListOrderIrrelevant(v: int, pieces: seq<string>, others: seq<string>)
    requires |pieces| > 0 && |others| > 0
    requires forall p | p in pieces :: IsDigits(p)
    requires forall p :: p in pieces <==> p in others
    ensures MatchCriteria(v, Join(pieces, ',')) == MatchCriteria(v, Join(others, ','))
  {
    ListCriterion(v, pieces);
    ListCriterion(v, others);
    if exists p :: p in pieces && DigitsValue(p) == v {
      var p :| p in pieces && DigitsValue(p) == v;
      assert p in others;
    }
    if exists p :: p in others && DigitsValue(p) == v {
      var p :| p in others && DigitsValue(p) == v;
      assert p in pieces;
    }
  }

  /** "/N" holds exactly for the multiples of N; N = 0 raises the modulo-by-zero error. */
  lemma EveryCriterion(v: int, n: string)
    requires IsDigits(n)
    ensures MatchCriteria(v, "/" + n) ==
      if DigitsValue(n) == 0 then ModuloByZero else Ok(v % DigitsValue(n) == 0)
  {
    ClassifyEvery(n);
  }

  /** "A/N" holds for every value when A is the text "0"; otherwise exactly for the
      multiples of N, whatever A is, and N = 0 raises the modulo-by-zero error. */
  lemma OffsetCriterion(v: int, a: string, n: string)
    requires IsDigits(a) && IsDigits(n)
    ensures MatchCriteria(v, a + "/" + n) ==
      if a == "0" then Ok(true)
      else if DigitsValue(n) == 0 then ModuloByZero
      else Ok(v % DigitsValue(n) == 0)
  {
    ClassifyOffset(a, n);
  }

  /** A criterion other than "*" whose text (a final line feed aside) is empty, ends in something
      other than a digit, or holds a character other than a digit, `,`, `-` and `/` matches no
      value (line 121). */
  lemma UnrecognisedCriterion(v: int, s: string)
    requires s != "*"
    requires !Recognisable(SubjectBody(s))
    ensures MatchCriteria(v, s) == Ok(false)
  {
    RecognisedShape(s);
  }

  /** A criterion with two `-` or two `/` fits no pattern and matches no value, as "1-2-3" and
      "1/2/3" do not. */
  lemma {:induction false} RepeatedSeparatorCriterion(v: int, s: string, sep: char, i: nat, j: nat)
    requires s != "*"
    requires sep == '-' || sep == '/'
    requires i < j < |SubjectBody(s)| && SubjectBody(s)[i] == sep && SubjectBody(s)[j] == sep
    ensures MatchCriteria(v, s) == Ok(false)
  {
    var b := SubjectBody(s);
    var other := if sep == '-' then '/' else '-';
    var kSep, kOther := IndexOf(b, sep), IndexOf(b, other);
    assert !IsRangeForm(b) && !IsOffsetForm(b) by {
      // after the first `sep` comes the second one
      assert kSep <= i;
      assert kSep < |b| ==> b[kSep + 1..][j - kSep - 1] == sep;
      // around the other separator, every character is a digit or that separator
      if kOther < |b| && IsDigits(b[..kOther]) && IsDigits(b[kOther + 1..]) {
        AroundSeparator(b, kOther, other);
      }
    }
    assert !IsListForm(b) by {
      if IsListForm(b) {
        JoinSplit(b, ',');
        JoinDigits(Split(b, ','));
      }
    }
    assert !IsEveryForm(b) by {
      if |b| > 0 && b[0] == '/' {
        assert b[1..][j - 1] == sep;
      }
    }
  }

  /** matchCriteria holds only for "*" or for a criterion of the recognisable shape. */
  lemma OnlyRecognisableMatches(v: int, s: string)
    ensures MatchCriteria(v, s) == Ok(true) ==> s == "*" || Recognisable(SubjectBody(s))
  {
    RecognisedShape(s);
  }

  /** One final line feed is invisible to the anchored patterns (but not to the strict "*" test). */
  lemma FinalNewlineIgnored(v: int, s: string)
    requires s != "*"
    requires |s| == 0 || s[|s| - 1] != '\n'
    ensures MatchCriteria(v, s + "\n") == MatchCriteria(v, s)
  {
    var t := s + "\n";
    assert t != "*" by { assert t[|t| - 1] == '\n'; }
    assert t[..|t| - 1] == s;
    assert SubjectBody(t) == SubjectBody(s);
    assert Classify(t) == Classify(s);
  }
}

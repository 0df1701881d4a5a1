/** The token estimate of app/platform/tokens.go: a one-pass scanner with two run counters, against its
    meaning as a sum over the maximal runs of the text. */
module TokenEstimate {

  /** How the scanner sees a rune: `Word` is a letter, a digit or an underscore outside the CJK scripts. */
  datatype Class = Space | Cjk | Word | Other

  /** Length of the run the text starts with. */
  function HeadRun(s: seq<Class>): (n: nat)
    requires s != []
    ensures 1 <= n <= |s|
    ensures forall i :: 0 <= i < n ==> s[i] == s[0]
    ensures n < |s| ==> s[n] != s[0]
  {
    if |s| == 1 || s[1] != s[0] then 1 else 1 + HeadRun(s[1..])
  }

  /** Length of the run the text ends with. */
  function TailRun(s: seq<Class>): (n: nat)
    requires s != []
    ensures 1 <= n <= |s|
    ensures forall i :: |s| - n <= i < |s| ==> s[i] == s[|s| - 1]
    ensures n < |s| ==> s[|s| - n - 1] != s[|s| - 1]
  {
    var k := |s| - 1;
    if k == 0 || s[k - 1] != s[k] then 1 else 1 + TailRun(s[..k])
  }

  /** What a run of `n` runes of one class counts for: ten word runes or two CJK runes to a token, rounded
      up; every other visible rune is a token. */
  function Cost(c: Class, n: nat): nat {
    match c
    case Space => 0
    case Cjk => (n + 1) / 2
    case Word => (n + 9) / 10
    case Other => n
  }

  function Estimate(s: seq<Class>): (tokens: nat) {
    if s == [] then 0 else var n := HeadRun(s); Cost(s[0], n) + Estimate(s[n..])
  }

  lemma HeadRunIs(s: seq<Class>, n: nat)
    requires 1 <= n <= |s|
    requires forall i :: 0 <= i < n ==> s[i] == s[0]
    requires n < |s| ==> s[n] != s[0]
    ensures HeadRun(s) == n
  {
  }

  lemma FirstRun(s: seq<Class>, n: nat)
    requires 1 <= n <= |s|
    requires forall i :: 0 <= i < n ==> s[i] == s[0]
    requires n < |s| ==> s[n] != s[0]
    ensures HeadRun(s) == n && Estimate(s) == Cost(s[0], n) + Estimate(s[n..])
  {
    hide HeadRun, Cost;
    HeadRunIs(s, n);
  }

  /** A space or a symbol at the head contributes on its own. */
  lemma Single(s: seq<Class>)
    requires s != [] && (s[0].Space? || s[0].Other?)
    ensures Estimate(s) == Cost(s[0], 1) + Estimate(s[1..])
  {
    var n := HeadRun(s);
    if n > 1 {
      HeadRunIs(s[1..], n - 1);
      assert s[1..][n - 1..] == s[n..];
    } else {
      assert s[n..] == s[1..];
    }
  }

  /** A text of one class: every ten word runes and every two CJK runes, begun or complete, are one token, every
      other visible rune is one, and spaces are none. */
  lemma OneRun(s: seq<Class>)
    requires s != [] && forall i :: 0 <= i < |s| ==> s[i] == s[0]
    ensures match s[0]
      case Word => 10 * (Estimate(s) - 1) < |s| <= 10 * Estimate(s)
      case Cjk => 2 * (Estimate(s) - 1) < |s| <= 2 * Estimate(s)
      case Other => Estimate(s) == |s|
      case Space => Estimate(s) == 0
  {
    hide HeadRun, Estimate;
    FirstRun(s, |s|);
    assert s[|s|..] == [];
    Nothing();
  }

  lemma Nothing()
    ensures Estimate([]) == 0
  {
  }

  lemma SingleAt(s: seq<Class>, i: nat)
    requires i < |s| && (s[i].Space? || s[i].Other?)
    ensures Estimate(s[i..]) == (if s[i].Space? then 0 else 1) + Estimate(s[i + 1..])
  {
    Single(s[i..]);
    assert s[i..][1..] == s[i + 1..];
  }

  /** The open run of the scanner lies just before `i`; at most one counter is positive. */
  ghost predicate OpenRun(s: seq<Class>, i: nat, wordLen: nat, cjkLen: nat): (open: bool)
    ensures open ==> wordLen + cjkLen <= i <= |s|
  {
    && wordLen + cjkLen <= i <= |s| && (wordLen == 0 || cjkLen == 0)
    && (forall k :: i - wordLen <= k < i ==> s[k] == Word)
    && forall k :: i - cjkLen <= k < i ==> s[k] == Cjk
  }

  /** With no run open a space or a symbol is passed; with no other run open a run grows. */
  lemma Advance(s: seq<Class>, i: nat, wordLen: nat, cjkLen: nat)
    requires OpenRun(s, i, wordLen, cjkLen) && i < |s|
    ensures wordLen == cjkLen == 0 ==> OpenRun(s, i + 1, 0, 0)
    ensures cjkLen == 0 && s[i] == Word ==> OpenRun(s, i + 1, wordLen + 1, 0)
    ensures wordLen == 0 && s[i] == Cjk ==> OpenRun(s, i + 1, 0, cjkLen + 1)
  {
  }

  /** The scanner. */
  method EstimateTokenText(classOf: char -> Class, text: string) returns (tokens: nat)
    ensures tokens == Estimate(Classes(classOf, text))
  {
    hide Estimate, HeadRun, Cost, OpenRun;
    ghost var s := Classes(classOf, text);
    var wordLen, cjkLen := 0, 0;
    tokens := 0;
    OpenAtStart(s);
    for i := 0 to |text|
      invariant OpenRun(s, i, wordLen, cjkLen)
      invariant Estimate(s) == tokens + Estimate(s[i - wordLen - cjkLen..])
    {
      match classOf(text[i]) {
        case Space =>
          tokens, wordLen := FlushWord(s, i, tokens, wordLen, cjkLen);
          tokens, cjkLen := FlushCjk(s, i, tokens, wordLen, cjkLen);
          SingleAt(s, i);
          Advance(s, i, 0, 0);
        case Cjk =>
          tokens, wordLen := FlushWord(s, i, tokens, wordLen, cjkLen);
          Advance(s, i, 0, cjkLen);
          cjkLen := cjkLen + 1;
        case Word =>
          tokens, cjkLen := FlushCjk(s, i, tokens, wordLen, cjkLen);
          Advance(s, i, wordLen, 0);
          wordLen := wordLen + 1;
        case Other =>
          tokens, wordLen := FlushWord(s, i, tokens, wordLen, cjkLen);
          tokens, cjkLen := FlushCjk(s, i, tokens, wordLen, cjkLen);
          SingleAt(s, i);
          Advance(s, i, 0, 0);
          tokens := tokens + 1;
      }
    }
    tokens, wordLen := FlushWord(s, |text|, tokens, wordLen, cjkLen);
    tokens, cjkLen := FlushCjk(s, |text|, tokens, wordLen, cjkLen);
    assert s[|text|..] == [];
    Nothing();
  }

  lemma OpenAtStart(s: seq<Class>)
    ensures OpenRun(s, 0, 0, 0) && s[0..] == s
  {
  }

  function Classes(classOf: char -> Class, text: string): (s: seq<Class>)
    ensures |s| == |text|
  {
    seq(|text|, i requires 0 <= i < |text| => classOf(text[i]))
  }

  method FlushWord(ghost s: seq<Class>, ghost i: nat, tokens: nat, wordLen: nat, cjkLen: nat)
    returns (count: nat, left: nat)
    requires OpenRun(s, i, wordLen, cjkLen)
    requires i < |s| ==> s[i] != Word
    ensures left == 0 && OpenRun(s, i, 0, cjkLen)
    ensures count + Estimate(s[i - cjkLen..]) == tokens + Estimate(s[i - wordLen - cjkLen..])
  {
    hide Estimate, HeadRun;
    count, left := tokens, wordLen;
    if left > 0 {
      FirstRun(s[i - left..], left);
      assert s[i - left..][left..] == s[i..];
      count, left := count + (left + 9) / 10, 0;
    }
  }

  method FlushCjk(ghost s: seq<Class>, ghost i: nat, tokens: nat, wordLen: nat, cjkLen: nat)
    returns (count: nat, left: nat)
    requires OpenRun(s, i, wordLen, cjkLen)
    requires i < |s| ==> s[i] != Cjk
    ensures left == 0 && OpenRun(s, i, wordLen, 0)
    ensures count + Estimate(s[i - wordLen..]) == tokens + Estimate(s[i - wordLen - cjkLen..])
  {
    hide Estimate, HeadRun;
    count, left := tokens, cjkLen;
    if left > 0 {
      FirstRun(s[i - left..], left);
      assert s[i - left..][left..] == s[i..];
      count, left := count + (left + 1) / 2, 0;
    }
  }

  // ---- Joining texts ------------------------------------------------------

  /** What joining two texts saves: something only when a run continues across the join. */
  function Saved(a: seq<Class>, b: seq<Class>): int {
    if a == [] || b == [] || a[|a| - 1] != b[0] then 0
    else Cost(b[0], TailRun(a)) + Cost(b[0], HeadRun(b)) - Cost(b[0], TailRun(a) + HeadRun(b))
  }

  lemma {:induction false} TailRunAfter(a: seq<Class>, rest: seq<Class>)
    requires a != [] && rest != [] && a[|a| - 1] != rest[0]
    ensures TailRun(a + rest) == TailRun(rest)
  {
    var k := |rest| - 1;
    assert (a + rest)[..|a| + k] == a + rest[..k];
    if k > 0 && rest[k - 1] == rest[k] {
      TailRunAfter(a, rest[..k]);
    }
  }

  lemma {:induction false} TailRunAll(s: seq<Class>)
    requires s != [] && forall i :: 0 <= i < |s| ==> s[i] == s[0]
    ensures TailRun(s) == |s|
  {
    if |s| > 1 {
      TailRunAll(s[..|s| - 1]);
    }
  }

  lemma TailRunStep(s: seq<Class>)
    requires s != []
    ensures TailRun(s) == if HeadRun(s) == |s| then |s| else TailRun(s[HeadRun(s)..])
  {
    hide HeadRun, TailRun;
    var h := HeadRun(s);
    if h < |s| {
      assert s == s[..h] + s[h..];
      TailRunAfter(s[..h], s[h..]);
    } else {
      TailRunAll(s);
    }
  }

  /** The estimate of a joined text, exactly. */
  lemma {:induction false} Join(a: seq<Class>, b: seq<Class>)
    ensures Estimate(a + b) == Estimate(a) + Estimate(b) - Saved(a, b)
  {
    hide Estimate, HeadRun, TailRun, Cost;
    Nothing();
    if a == [] {
      assert a + b == b;
    } else if b == [] {
      assert a + b == a;
    } else {
      var n := HeadRun(a);
      FirstRun(a, n);
      TailRunStep(a);
      if n < |a| {
        FirstRun(a + b, n);
        assert (a + b)[n..] == a[n..] + b;
        Join(a[n..], b);
      } else if a[0] != b[0] {
        FirstRun(a + b, n);
        assert (a + b)[n..] == b && a[n..] == [];
      } else {
        var m := HeadRun(b);
        FirstRun(b, m);
        FirstRun(a + b, n + m);
        assert (a + b)[n + m..] == b[m..] && a[n..] == [];
      }
    }
  }

  /** Joining loses at most one token and never gains one; across a space it loses nothing. */
  lemma NearlyAdditive(a: seq<Class>, b: seq<Class>)
    ensures Estimate(a) + Estimate(b) - 1 <= Estimate(a + b) <= Estimate(a) + Estimate(b)
    ensures Estimate(a + [Space] + b) == Estimate(a) + Estimate(b)
  {
    hide Estimate, HeadRun, TailRun;
    Join(a, b);
    Join(a, [Space] + b);
    Single([Space] + b);
    assert a + [Space] + b == a + ([Space] + b) && ([Space] + b)[1..] == b;
  }

  /** The one token is lost exactly when the join falls inside a word or CJK run whose two parts, rounded
      up apart, take one token more than together. */
  lemma LosesExactly(a: seq<Class>, b: seq<Class>)
    ensures Estimate(a + b) < Estimate(a) + Estimate(b)
      <==> a != [] && b != [] && a[|a| - 1] == b[0] && SplitCosts(b[0], TailRun(a), HeadRun(b))
  {
    hide Estimate, HeadRun, TailRun, Cost, SplitCosts;
    Join(a, b);
    if a != [] && b != [] {
      SplitLoses(b[0], TailRun(a), HeadRun(b));
    }
  }

  lemma SplitLoses(c: Class, n: nat, m: nat)
    ensures Cost(c, n) + Cost(c, m) > Cost(c, n + m) <==> SplitCosts(c, n, m)
  {
    if c == Word {
      TenthsUp(n);
      TenthsUp(m);
      TenthsUp(n + m);
      assert n + m == 10 * (n / 10 + m / 10) + (n % 10 + m % 10);
      var carry := if n % 10 + m % 10 >= 10 then 1 else 0;
      assert (n + m) / 10 == n / 10 + m / 10 + carry;
      assert (n + m) % 10 == n % 10 + m % 10 - 10 * carry;
    }
  }

  lemma TenthsUp(n: nat)
    ensures (n + 9) / 10 == n / 10 + if n % 10 == 0 then 0 else 1
  {
  }

  /** Two word runes are a token apart and a token together. */
  lemma SplitWordLosesOne()
    ensures Estimate([Word]) == 1 && Estimate([Word] + [Word]) == 1
    ensures Estimate([Word] + [Word]) < Estimate([Word]) + Estimate([Word])
  {
    Nothing();
    FirstRun([Word], 1);
    FirstRun([Word] + [Word], 2);
  }

  predicate SplitCosts(c: Class, n: nat, m: nat) {
    || (c == Cjk && n % 2 == 1 && m % 2 == 1)
    || (c == Word && n % 10 != 0 && m % 10 != 0 && n % 10 + m % 10 <= 10)
  }
}

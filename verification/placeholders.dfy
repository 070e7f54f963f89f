/** Rewriting PostgreSQL placeholders for SQLite (internal/store/store.go,
    replacePlaceholders): every `$` with the digits after it becomes `?`. */
module Placeholders {

  predicate IsDigit(c: char) {
    '0' <= c <= '9'
  }

  /** The text after its leading digits. */
  function SkipDigits(s: string): (r: string)
    ensures |r| <= |s|
  {
    if s != "" && IsDigit(s[0]) then SkipDigits(s[1..]) else s
  }

  function Rewrite(s: string): string
    decreases |s|
  {
    if s == "" then ""
    else if s[0] == '$' then "?" + Rewrite(SkipDigits(s[1..]))
    else [s[0]] + Rewrite(s[1..])
  }

  method ReplacePlaceholders(sql: string) returns (result: string)
    ensures result == Rewrite(sql)
  {
    hide Rewrite;
    result := "";
    var i := 0;
    while i < |sql|
      invariant 0 <= i <= |sql|
      invariant result + Rewrite(sql[i..]) == Rewrite(sql)
    {
      ghost var before, rest := result, sql[i..];
      assert rest[1..] == sql[i + 1..];
      RewriteHead(rest);
      if sql[i] == '$' {
        result := result + "?";
        while i + 1 < |sql| && '0' <= sql[i + 1] <= '9'
          invariant 0 <= i < |sql|
          invariant SkipDigits(sql[i + 1..]) == SkipDigits(rest[1..])
          decreases |sql| - i
        {
          assert sql[i + 1..][1..] == sql[i + 2..];
          i := i + 1;
        }
        assert before + ("?" + Rewrite(sql[i + 1..])) == result + Rewrite(sql[i + 1..]);
      } else {
        result := result + [sql[i]];
        assert before + ([sql[i]] + Rewrite(sql[i + 1..])) == result + Rewrite(sql[i + 1..]);
      }
      i := i + 1;
    }
    assert sql[|sql|..] == "";
    RewriteNothing();
  }

  lemma RewriteHead(s: string)
    requires s != ""
    ensures Rewrite(s) == if s[0] == '$' then "?" + Rewrite(SkipDigits(s[1..])) else [s[0]] + Rewrite(s[1..])
  {
  }

  lemma RewriteNothing()
    ensures Rewrite("") == ""
  {
  }

  // ------------------------------------------------------- the grammar

  /** A statement: literals with numbered placeholders between them. */
  datatype Sql = End(literal: string) | Then(literal: string, digits: string, rest: Sql)

  predicate Numeral(c: char) {
    c in {'0', '1', '2', '3', '4', '5', '6', '7', '8', '9'}
  }

  /** Literals have no dollar sign, placeholders are digits. */
  predicate Shape(q: Sql) {
    match q
    case End(l) => '$' !in l
    case Then(l, digits, rest) =>
      '$' !in l && (forall i :: 0 <= i < |digits| ==> Numeral(digits[i])) && Shape(rest)
  }

  /** No literal after a placeholder starts with a digit. */
  predicate Separated(q: Sql) {
    q.Then? ==> !StartsWithDigit(q.rest.literal) && Separated(q.rest)
  }

  predicate StartsWithDigit(s: string) {
    s != "" && Numeral(s[0])
  }

  function Postgres(q: Sql): string {
    match q
    case End(l) => l
    case Then(l, digits, rest) => l + ("$" + (digits + Postgres(rest)))
  }

  function Sqlite(q: Sql): string {
    match q
    case End(l) => l
    case Then(l, _, rest) => l + ("?" + Sqlite(rest))
  }

  lemma {:induction false} RewriteLiteral(l: string, s: string)
    requires '$' !in l
    ensures Rewrite(l + s) == l + Rewrite(s)
  {
    hide Rewrite;
    if l == "" {
      assert l + s == s;
    } else {
      RewriteLiteral(l[1..], s);
      RewriteHead(l + s);
      assert (l + s)[1..] == l[1..] + s && l[0] in l;
      assert l + Rewrite(s) == [l[0]] + (l[1..] + Rewrite(s));
    }
  }

  lemma {:induction false} SkipAllDigits(digits: string, s: string)
    requires forall i :: 0 <= i < |digits| ==> Numeral(digits[i])
    ensures SkipDigits(digits + s) == SkipDigits(s)
  {
    if digits == "" {
      assert digits + s == s;
    } else {
      SkipAllDigits(digits[1..], s);
      assert (digits + s)[1..] == digits[1..] + s;
    }
  }

  /** Skipped digits are lost from the output. */
  lemma {:induction false} SkippingLoses(s: string)
    ensures |Rewrite(SkipDigits(s))| <= |Rewrite(s)|
    ensures StartsWithDigit(s) ==> |Rewrite(SkipDigits(s))| < |Rewrite(s)|
  {
    if !StartsWithDigit(s) {
    } else {
      SkippingLoses(s[1..]);
    }
  }

  lemma RewriteThen(q: Sql)
    requires Shape(q) && q.Then?
    ensures Rewrite(Postgres(q)) == q.literal + ("?" + Rewrite(SkipDigits(Postgres(q.rest))))
    ensures StartsWithDigit(Postgres(q.rest)) <==> StartsWithDigit(q.rest.literal)
  {
    var s := Postgres(q.rest);
    SkipAllDigits(q.digits, s);
    RewriteLiteral(q.literal, "$" + (q.digits + s));
    assert ("$" + (q.digits + s))[1..] == q.digits + s;
    if q.rest.Then? && q.rest.literal == "" {
      assert s == "$" + (q.rest.digits + Postgres(q.rest.rest));
    }
  }

  lemma {:induction false} RewriteIsNeverLonger(q: Sql)
    requires Shape(q)
    ensures |Rewrite(Postgres(q))| <= |Sqlite(q)|
  {
    if q.End? {
      RewriteLiteral(q.literal, "");
      assert q.literal + "" == q.literal;
    } else {
      RewriteThen(q);
      RewriteIsNeverLonger(q.rest);
      SkippingLoses(Postgres(q.rest));
    }
  }

  /** Main result: on statements of this shape the rewriting changes exactly the
      placeholders iff no literal after a placeholder starts with a digit; such a
      digit would be swallowed. */
  lemma {:induction false} RewriteMeetsTheGrammar(q: Sql)
    requires Shape(q)
    ensures Rewrite(Postgres(q)) == Sqlite(q) <==> Separated(q)
  {
    if q.End? {
      RewriteLiteral(q.literal, "");
      assert q.literal + "" == q.literal;
    } else {
      hide Rewrite, Postgres;
      RewriteThen(q);
      RewriteMeetsTheGrammar(q.rest);
      var tail := Rewrite(SkipDigits(Postgres(q.rest)));
      SameTail(q.literal, tail, Sqlite(q.rest));
      if StartsWithDigit(q.rest.literal) {
        SkippingLoses(Postgres(q.rest));
        RewriteIsNeverLonger(q.rest);
      }
    }
  }

  lemma SameTail(p: string, s: string, t: string)
    ensures p + ("?" + s) == p + ("?" + t) <==> s == t
  {
    var x, y := p + ("?" + s), p + ("?" + t);
    if x == y {
      assert s == x[|p| + 1..] && t == y[|p| + 1..];
    }
  }

  // ------------------------------------------------------- any text

  function Count(s: string, c: char): nat {
    if s == "" then 0 else (if s[0] == c then 1 else 0) + Count(s[1..], c)
  }

  lemma {:induction false} DigitsAreNeither(s: string, c: char)
    requires !IsDigit(c)
    ensures Count(SkipDigits(s), c) == Count(s, c)
  {
    if s == "" || !IsDigit(s[0]) {
    } else {
      DigitsAreNeither(s[1..], c);
    }
  }

  /** Main result, for all inputs: no dollar sign is left, and there are exactly as
      many more question marks as there were dollar signs. */
  lemma {:induction false} DollarsBecomeQuestionMarks(s: string)
    ensures '$' !in Rewrite(s)
    ensures Count(Rewrite(s), '?') == Count(s, '?') + Count(s, '$')
    decreases |s|
  {
    if s == "" {
    } else if s[0] == '$' {
      var rest := SkipDigits(s[1..]);
      DollarsBecomeQuestionMarks(rest);
      DigitsAreNeither(s[1..], '?');
      DigitsAreNeither(s[1..], '$');
      assert ("?" + Rewrite(rest))[1..] == Rewrite(rest);
    } else {
      DollarsBecomeQuestionMarks(s[1..]);
      assert ([s[0]] + Rewrite(s[1..]))[1..] == Rewrite(s[1..]);
    }
  }

  /** Main result: rewriting twice changes nothing more. */
  lemma RewriteIsIdempotent(s: string)
    ensures Rewrite(Rewrite(s)) == Rewrite(s)
  {
    DollarsBecomeQuestionMarks(s);
    RewriteLiteral(Rewrite(s), "");
    assert Rewrite(s) + "" == Rewrite(s);
  }
}

/**
 * The expression model: a regular expression over an opaque symbol type,
 * its three composition operators, the operator precedence table and the
 * precedence-aware rendering to conventional regex syntax.
 */
module Regex {

  /** A regular expression tree over symbols of type T. */
  datatype Regex<T> =
    | Literal(sym: T)
    | Alternative(left: Regex<T>, right: Regex<T>)
    | Concatenation(left: Regex<T>, right: Regex<T>)
    | Star(inner: Regex<T>)
    | Empty
  {
    /** Binding strength of the outermost operator; atoms bind tightest. */
    function Precedence(): (p: int)
      ensures 1 <= p <= 5
      ensures p == 5 <==> (Literal? || Empty?)
      ensures p == 1 <==> Alternative?
    {
      match this
      case Literal(_) => 5
      case Empty => 5
      case Alternative(_, _) => 1
      case Concatenation(_, _) => 2
      case Star(_) => 3
    }

    /**
     * The Rust `star`: meant as zero-or-more repetition of this expression
     * (the NFA builder compiles it to one-or-more).
     */
    function Starred(): (r: Regex<T>)
      ensures r.Star? && r.inner == this
    {
      Star(this)
    }

    /** The Rust `concatenate`: this expression followed by `other`. */
    function Concatenate(other: Regex<T>): (r: Regex<T>)
      ensures r.Concatenation? && r.left == this && r.right == other
    {
      Concatenation(this, other)
    }

    /** The Rust `alternate`: this expression or `other`. */
    function Alternate(other: Regex<T>): (r: Regex<T>)
      ensures r.Alternative? && r.left == this && r.right == other
    {
      Alternative(this, other)
    }
  }

  /** The text printed for `Empty`: the two characters U+00CE U+00B5. */
  const EMPTY_TEXT: string := "\U{00CE}\U{00B5}"

  /**
   * Renders `r`; `show` is the symbol type's own display. An operand is
   * written bare when its precedence reaches the context's, else in parentheses.
   */
  function Render<T>(r: Regex<T>, show: T -> string): (s: string)
    ensures r.Alternative? ==> '|' in s
    ensures r.Star? ==> |s| >= 1 && s[|s| - 1] == '*'
    decreases r, 0
  {
    match r
    case Literal(c) => show(c)
    case Alternative(a, b) => Operand(a, 1, show) + "|" + Operand(b, 1, show)
    case Concatenation(a, b) => Operand(a, 2, show) + Operand(b, 2, show)
    case Star(a) => Operand(a, 3, show) + "*"
    case Empty => EMPTY_TEXT
  }

  /** Rendering of `a` as an operand of an operator with precedence `context`. */
  function Operand<T>(a: Regex<T>, context: int, show: T -> string): string
    decreases a, 1
  {
    Paren(Render(a, show), a.Precedence() < context)
  }

  /** `s`, wrapped in parentheses when `wrap` holds. */
  function Paren(s: string, wrap: bool): string {
    if wrap then "(" + s + ")" else s
  }

  /** Precedence order: alternation < concatenation < repetition < atoms. */
  lemma PrecedenceOrder<T>(a: Regex<T>, b: Regex<T>, c: T)
    ensures Alternative(a, b).Precedence() < Concatenation(a, b).Precedence()
    ensures Concatenation(a, b).Precedence() < Star(a).Precedence()
    ensures Star(a).Precedence() < Literal(c).Precedence()
    ensures Literal(c).Precedence() == Regex<T>.Empty.Precedence() == 5
  {
  }

  /** A literal is rendered by the symbol's display and never wrapped. */
  lemma RenderLiteral<T>(c: T, show: T -> string)
    ensures Render(Literal(c), show) == show(c)
  {
  }

  /** The empty expression renders as the fixed two-character text. */
  lemma RenderEmpty<T>(show: T -> string)
    ensures Render(Empty, show) == EMPTY_TEXT
    ensures |Render(Empty, show)| == 2
  {
  }

  /** Operands of an alternation are never parenthesised. */
  lemma RenderAlternative<T>(a: Regex<T>, b: Regex<T>, show: T -> string)
    ensures Render(Alternative(a, b), show) == Render(a, show) + "|" + Render(b, show)
  {
  }

  /** In a concatenation an operand is parenthesised iff it is an alternation. */
  lemma RenderConcatenation<T>(a: Regex<T>, b: Regex<T>, show: T -> string)
    ensures Render(Concatenation(a, b), show)
         == Paren(Render(a, show), a.Alternative?) + Paren(Render(b, show), b.Alternative?)
  {
  }

  /** Under a star the operand is parenthesised iff it is an alternation or a concatenation. */
  lemma RenderStar<T>(a: Regex<T>, show: T -> string)
    ensures Render(Star(a), show)
         == Paren(Render(a, show), a.Alternative? || a.Concatenation?) + "*"
  {
  }

  /** A repeated repetition is never parenthesised: an atom `x` gives `x**`. */
  lemma RenderStarStar<T>(a: Regex<T>, show: T -> string)
    ensures Render(Star(Star(a)), show) == Render(Star(a), show) + "*"
    ensures (a.Literal? || a.Empty?) ==> Render(Star(Star(a)), show) == Render(a, show) + "**"
  {
  }

  // ---------------------------------------------------------------------
  // Balanced parentheses

  /** Number of open minus close parentheses in `s`. */
  function Depth(s: string): int {
    if s == [] then 0
    else (if s[0] == '(' then 1 else if s[0] == ')' then -1 else 0) + Depth(s[1..])
  }

  /** No prefix closes more parentheses than it opens, and the whole opens as many as it closes. */
  ghost predicate Balanced(s: string) {
    Depth(s) == 0 && forall k :: 0 <= k <= |s| ==> Depth(s[..k]) >= 0
  }

  /** A string without parentheses. */
  ghost predicate ParenFree(s: string) {
    forall i :: 0 <= i < |s| ==> s[i] != '(' && s[i] != ')'
  }

  lemma {:induction false} DepthAppend(x: string, y: string)
    ensures Depth(x + y) == Depth(x) + Depth(y)
  {
    if x != [] {
      assert (x + y)[1..] == x[1..] + y;
      DepthAppend(x[1..], y);
    } else {
      assert x + y == y;
    }
  }

  lemma {:induction false} DepthParenFree(s: string)
    requires ParenFree(s)
    ensures Balanced(s)
  {
    if s != [] {
      DepthParenFree(s[1..]);
    }
    forall k | 0 <= k <= |s| ensures Depth(s[..k]) == 0 {
      PrefixParenFree(s, k);
    }
  }

  lemma {:induction false} PrefixParenFree(s: string, k: nat)
    requires ParenFree(s) && k <= |s|
    ensures Depth(s[..k]) == 0
  {
    if k > 0 {
      assert s[..k][1..] == s[1..][..k - 1];
      PrefixParenFree(s[1..], k - 1);
    }
  }

  lemma BalancedAppend(x: string, y: string)
    requires Balanced(x) && Balanced(y)
    ensures Balanced(x + y)
  {
    DepthAppend(x, y);
    forall k | 0 <= k <= |x + y| ensures Depth((x + y)[..k]) >= 0 {
      if k <= |x| {
        assert (x + y)[..k] == x[..k];
      } else {
        assert (x + y)[..k] == x + y[..k - |x|];
        DepthAppend(x, y[..k - |x|]);
      }
    }
  }

  lemma BalancedWrap(s: string, wrap: bool)
    requires Balanced(s)
    ensures Balanced(Paren(s, wrap))
  {
    if wrap {
      var w := "(" + s + ")";
      DepthAppend("(" + s, ")");
      DepthAppend("(", s);
      forall k | 0 <= k <= |w| ensures Depth(w[..k]) >= 0 {
        if k == 0 {
        } else if k <= |s| + 1 {
          assert w[..k] == "(" + s[..k - 1];
          DepthAppend("(", s[..k - 1]);
        } else {
          assert w[..k] == w;
        }
      }
    }
  }

  /**
   * The rendering is well-parenthesised whenever no symbol's display
   * contains a parenthesis.
   */
  lemma {:induction false} RenderBalanced<T>(r: Regex<T>, show: T -> string)
    requires forall c :: ParenFree(show(c))
    ensures Balanced(Render(r, show))
    decreases r, 0
  {
    match r
    case Literal(c) =>
      DepthParenFree(show(c));
    case Empty =>
      DepthParenFree(EMPTY_TEXT);
    case Alternative(a, b) =>
      OperandBalanced(a, 1, show);
      OperandBalanced(b, 1, show);
      DepthParenFree("|");
      BalancedAppend(Operand(a, 1, show), "|");
      BalancedAppend(Operand(a, 1, show) + "|", Operand(b, 1, show));
    case Concatenation(a, b) =>
      OperandBalanced(a, 2, show);
      OperandBalanced(b, 2, show);
      BalancedAppend(Operand(a, 2, show), Operand(b, 2, show));
    case Star(a) =>
      OperandBalanced(a, 3, show);
      DepthParenFree("*");
      BalancedAppend(Operand(a, 3, show), "*");
  }

  lemma {:induction false} OperandBalanced<T>(a: Regex<T>, context: int, show: T -> string)
    requires forall c :: ParenFree(show(c))
    ensures Balanced(Operand(a, context, show))
    decreases a, 1
  {
    RenderBalanced(a, show);
    BalancedWrap(Render(a, show), a.Precedence() < context);
  }
}

/**
 * The comparable cell value of nettree/symbol.py: a value observed on one
 * series over one time interval, compared against another Symbol or a plain
 * string by one of five operators looked up by key.
 */
module Symbols {
  import opened Wrappers

  /** A cell value: a string, or the missing marker (a float NaN in the data). */
  datatype Value = Missing | Str(s: string)

  /** `Symbol(symbol, series, t)`: the constructor only stores its three arguments. */
  datatype Symbol<S, T> = Symbol(symbol: Value, series: S, t: T)

  /** The right-hand operand of a comparison, by its Python type. */
  datatype Operand<S, T> =
    | SymbolOperand(other: Symbol<S, T>)
    | StrOperand(s: string)
    | OtherOperand

  /** The five comparisons: `__eq__`, `__leq__`, `__geq__`, `__lt__`, `__gt__`. */
  datatype Op = Eq | Le | Ge | Lt | Gt

  datatype CompareError =
    | OperatorFailure(op: Op)  // the RuntimeError each operator raises for an unsupported operand
    | Unorderable              // Python's own TypeError when a string is ordered against NaN

  /** The operator table built by the constructor, from a rule's 'op' key to a comparison. */
  function Operators(): (table: map<string, Op>)
    ensures table.Keys == {"=", "<=", ">=", "<", ">"}
    ensures table["="] == Eq && table["<="] == Le && table[">="] == Ge
    ensures table["<"] == Lt && table[">"] == Gt
  {
    map["=" := Eq, "<=" := Le, ">=" := Ge, "<" := Lt, ">" := Gt]
  }

  /**
   * Python's string order: lexicographic on code points, where a proper
   * prefix comes first. (Dafny's `<` on sequences means proper prefix only.)
   */
  predicate LexLess(a: string, b: string)
    decreases |a|
  {
    if |a| == 0 then |b| > 0
    else if |b| == 0 then false
    else if a[0] != b[0] then a[0] < b[0]
    else LexLess(a[1..], b[1..])
  }

  /** The relation `op` stands for, on two present strings. */
  predicate Holds(op: Op, a: string, b: string)
  {
    match op
    case Eq => a == b
    case Le => LexLess(a, b) || a == b
    case Ge => LexLess(b, a) || a == b
    case Lt => LexLess(a, b)
    case Gt => LexLess(b, a)
  }

  /**
   * `self <op> other`, one guard chain shared by the five operators: a missing
   * receiver compares false whatever the operand (checked before the operand's
   * type, so it never raises); a Symbol or string operand is compared by value;
   * any other operand raises.
   */
  function Compare<S, T>(op: Op, self: Symbol<S, T>, operand: Operand<S, T>): (r: Result<bool, CompareError>)
    ensures self.symbol.Missing? ==> r == Success(false)
    ensures self.symbol.Str? && operand.OtherOperand? ==> r == Failure(OperatorFailure(op))
    ensures self.symbol.Str? && operand.StrOperand? ==> r == Success(Holds(op, self.symbol.s, operand.s))
    ensures self.symbol.Str? && operand.SymbolOperand? && operand.other.symbol.Str? ==>
              r == Success(Holds(op, self.symbol.s, operand.other.symbol.s))
    ensures self.symbol.Str? && operand.SymbolOperand? && operand.other.symbol.Missing? ==>
              r == (if op == Eq then Success(false) else Failure(Unorderable))
  {
    match self.symbol
    case Missing => Success(false)
    case Str(a) =>
      match operand
      case SymbolOperand(o) =>
        (match o.symbol
         case Str(b) => Success(Holds(op, a, b))
         case Missing => if op == Eq then Success(false) else Failure(Unorderable))
      case StrOperand(b) => Success(Holds(op, a, b))
      case OtherOperand => Failure(OperatorFailure(op))
  }

  /** The comparison a rule's operator key selects; unknown keys select nothing. */
  function CompareByKey<S, T>(key: string, self: Symbol<S, T>, operand: Operand<S, T>): (r: Option<Result<bool, CompareError>>)
    ensures r.Some? <==> key in {"=", "<=", ">=", "<", ">"}
    ensures key == "=" ==> r == Some(Compare(Eq, self, operand))
    ensures key == "<=" ==> r == Some(Compare(Le, self, operand))
    ensures key == ">=" ==> r == Some(Compare(Ge, self, operand))
    ensures key == "<" ==> r == Some(Compare(Lt, self, operand))
    ensures key == ">" ==> r == Some(Compare(Gt, self, operand))
  {
    if key in Operators() then Some(Compare(Operators()[key], self, operand)) else None
  }

  // ---------------------------------------------------------------------------
  // The string order is a strict total order, and it is the usual
  // "first difference decides, a proper prefix is smaller" order.
  // ---------------------------------------------------------------------------

  lemma {:induction false} LexLessIrreflexive(a: string)
    ensures !LexLess(a, a)
    decreases |a|
  {
    if |a| > 0 {
      LexLessIrreflexive(a[1..]);
    }
  }

  lemma {:induction false} LexLessAsymmetric(a: string, b: string)
    ensures !(LexLess(a, b) && LexLess(b, a))
    decreases |a|
  {
    if |a| > 0 && |b| > 0 && a[0] == b[0] {
      LexLessAsymmetric(a[1..], b[1..]);
    }
  }

  lemma {:induction false} LexTrichotomy(a: string, b: string)
    ensures LexLess(a, b) || a == b || LexLess(b, a)
    decreases |a|
  {
    if |a| > 0 && |b| > 0 && a[0] == b[0] {
      LexTrichotomy(a[1..], b[1..]);
      if a[1..] == b[1..] {
        assert a == [a[0]] + a[1..] && b == [b[0]] + b[1..];
      }
    }
  }

  lemma {:induction false} LexLessTransitive(a: string, b: string, c: string)
    requires LexLess(a, b) && LexLess(b, c)
    ensures LexLess(a, c)
    decreases |a|
  {
    if |a| > 0 && a[0] == b[0] && b[0] == c[0] {
      LexLessTransitive(a[1..], b[1..], c[1..]);
    }
  }

  /** The textbook definition: `a` is a proper prefix of `b`, or the first difference favours `a`. */
  ghost predicate PrefixOrFirstDifferenceLess(a: string, b: string)
  {
    (|a| < |b| && a == b[..|a|]) ||
    (exists i :: 0 <= i < |a| && i < |b| && a[..i] == b[..i] && a[i] < b[i])
  }

  /** The recursive order agrees with its textbook definition. */
  lemma LexLessIffFirstDifference(a: string, b: string)
    ensures LexLess(a, b) <==> PrefixOrFirstDifferenceLess(a, b)
  {
    if LexLess(a, b) {
      LexLessGivesDifference(a, b);
    }
    if PrefixOrFirstDifferenceLess(a, b) {
      if |a| < |b| && a == b[..|a|] {
        PrefixIsLexLess(a, b);
      } else {
        var i :| 0 <= i < |a| && i < |b| && a[..i] == b[..i] && a[i] < b[i];
        DifferenceIsLexLess(a, b, i);
      }
    }
  }

  lemma {:induction false} LexLessGivesDifference(a: string, b: string)
    requires LexLess(a, b)
    ensures PrefixOrFirstDifferenceLess(a, b)
    decreases |a|
  {
    if |a| == 0 {
      assert a == b[..0];
    } else if a[0] != b[0] {
      assert a[..0] == b[..0];
    } else {
      var a', b' := a[1..], b[1..];
      LexLessGivesDifference(a', b');
      if |a'| < |b'| && a' == b'[..|a'|] {
        assert a == [a[0]] + a' && b[..|a|] == [b[0]] + b'[..|a'|];
      } else {
        var i :| 0 <= i < |a'| && i < |b'| && a'[..i] == b'[..i] && a'[i] < b'[i];
        assert a[..i + 1] == [a[0]] + a'[..i] && b[..i + 1] == [b[0]] + b'[..i];
        assert a[i + 1] < b[i + 1];
      }
    }
  }

  lemma {:induction false} PrefixIsLexLess(a: string, b: string)
    requires |a| < |b| && a == b[..|a|]
    ensures LexLess(a, b)
    decreases |a|
  {
    if |a| > 0 {
      assert a[0] == b[0];
      assert a[1..] == b[1..][..|a| - 1];
      PrefixIsLexLess(a[1..], b[1..]);
    }
  }

  lemma {:induction false} DifferenceIsLexLess(a: string, b: string, i: nat)
    requires i < |a| && i < |b| && a[..i] == b[..i] && a[i] < b[i]
    ensures LexLess(a, b)
    decreases i
  {
    if i > 0 {
      assert a[0] == a[..i][0] && b[0] == b[..i][0];
      assert a[1..][..i - 1] == a[..i][1..] && b[1..][..i - 1] == b[..i][1..];
      DifferenceIsLexLess(a[1..], b[1..], i - 1);
    }
  }

  // ---------------------------------------------------------------------------
  // How the five operators relate to each other on present values.
  // ---------------------------------------------------------------------------

  /** `x < y` exactly when `y > x`, and `x <= y` exactly when `y >= x`. */
  lemma CompareConverse<S, T>(x: Symbol<S, T>, y: Symbol<S, T>)
    requires x.symbol.Str? && y.symbol.Str?
    ensures Compare(Lt, x, SymbolOperand(y)) == Compare(Gt, y, SymbolOperand(x))
    ensures Compare(Le, x, SymbolOperand(y)) == Compare(Ge, y, SymbolOperand(x))
    ensures Compare(Eq, x, SymbolOperand(y)) == Compare(Eq, y, SymbolOperand(x))
  {
  }

  /** On present values exactly one of `<`, `=`, `>` holds, and `<=` is `<` or `=`. */
  lemma CompareTrichotomy<S, T>(x: Symbol<S, T>, y: Symbol<S, T>)
    requires x.symbol.Str? && y.symbol.Str?
    ensures Compare(Lt, x, SymbolOperand(y)).Success? && Compare(Eq, x, SymbolOperand(y)).Success? &&
            Compare(Gt, x, SymbolOperand(y)).Success?
    ensures var lt, eq, gt := Compare(Lt, x, SymbolOperand(y)).value,
                              Compare(Eq, x, SymbolOperand(y)).value,
                              Compare(Gt, x, SymbolOperand(y)).value;
            (lt || eq || gt) && !(lt && eq) && !(lt && gt) && !(eq && gt)
    ensures Compare(Le, x, SymbolOperand(y)).value ==
              (Compare(Lt, x, SymbolOperand(y)).value || Compare(Eq, x, SymbolOperand(y)).value)
  {
    var a, b := x.symbol.s, y.symbol.s;
    LexTrichotomy(a, b);
    LexLessAsymmetric(a, b);
    if a == b {
      LexLessIrreflexive(a);
    }
  }

  /** `<` chains: a present x below y below z is below z. */
  lemma CompareLtTransitive<S, T>(x: Symbol<S, T>, y: Symbol<S, T>, z: Symbol<S, T>)
    requires Compare(Lt, x, SymbolOperand(y)) == Success(true)
    requires Compare(Lt, y, SymbolOperand(z)) == Success(true)
    ensures Compare(Lt, x, SymbolOperand(z)) == Success(true)
  {
    LexLessTransitive(x.symbol.s, y.symbol.s, z.symbol.s);
  }
}

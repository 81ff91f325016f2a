/**
 * The infix-to-postfix conversion of the C regular-expression matcher
 * (`re2post`): `.` is inserted as an explicit concatenation operator, groups
 * are flattened, and a malformed expression yields NULL (here `None`).
 *
 * A C string is modelled as the sequence of its characters before the
 * terminating NUL; each `char` stands for one byte.
 */
module RegexPostfix {
  import opened Wrappers

  /** The size of the static output buffer; inputs of half that length or more are refused. */
  const BufSize: int := 8000
  /** The capacity of the stack of open groups. */
  const MaxParen: int := 100

  /** The characters that postfix form reads as operators. */
  predicate IsOperator(c: char) {
    c == '.' || c == '|' || c == '*' || c == '+' || c == '?'
  }

  /** A character that stands for itself in both forms: neither an operator nor a parenthesis. */
  predicate IsOperand(c: char) {
    !IsOperator(c) && c != '(' && c != ')'
  }

  /** The counts of an enclosing level, saved when `(` is read. */
  datatype Level = Level(nalt: int, natom: int)

  /**
   * The converter's variables between two input characters: the output so
   * far, the alternatives completed and the atoms pending at the current
   * level, and the saved enclosing levels.
   */
  datatype Parse = Parse(out: string, nalt: int, natom: int, paren: seq<Level>)

  /** `n` copies of `c` (none when `n` is not positive). */
  function Repeat(c: char, n: int): (r: string)
    ensures |r| == if n > 0 then n else 0
    ensures forall k :: 0 <= k < |r| ==> r[k] == c
  {
    if n <= 0 then [] else Repeat(c, n - 1) + [c]
  }

  /** The dots written by `while(--natom > 0)`: one fewer than the pending atoms. */
  function Concats(natom: int): string {
    Repeat('.', natom - 1)
  }

  /** The bars written by `for(; nalt > 0; nalt--)`: one per completed alternative. */
  function Alternations(nalt: int): string {
    Repeat('|', nalt)
  }

  /** `(`: the pending atoms are joined down to one and the current level is saved. */
  function OpenGroup(st: Parse): (r: Option<Parse>)
    ensures r.None? <==> |st.paren| >= MaxParen
  {
    var out := if st.natom > 1 then st.out + "." else st.out;
    var natom := if st.natom > 1 then st.natom - 1 else st.natom;
    if |st.paren| >= MaxParen then None
    else Some(Parse(out, 0, 0, st.paren + [Level(st.nalt, natom)]))
  }

  /** `|`: the pending atoms are joined into one more completed alternative. */
  function Alternate(st: Parse): (r: Option<Parse>)
    ensures r.None? <==> st.natom == 0
  {
    if st.natom == 0 then None
    else Some(Parse(st.out + Concats(st.natom), st.nalt + 1, 0, st.paren))
  }

  /** `)`: the group is closed into one atom of the enclosing level. */
  function CloseGroup(st: Parse): (r: Option<Parse>)
    ensures r.None? <==> st.paren == [] || st.natom == 0
  {
    if st.paren == [] || st.natom == 0 then None
    else
      var top := st.paren[|st.paren| - 1];
      Some(Parse(st.out + Concats(st.natom) + Alternations(st.nalt),
                 top.nalt, top.natom + 1, st.paren[..|st.paren| - 1]))
  }

  /** `*`, `+` or `?`: copied after the atom it applies to. */
  function Repetition(st: Parse, c: char): (r: Option<Parse>)
    ensures r.None? <==> st.natom == 0
  {
    if st.natom == 0 then None else Some(st.(out := st.out + [c]))
  }

  /** Any other character is an atom; two pending atoms are first joined by a dot. */
  function Atom(st: Parse, c: char): Parse {
    var out := if st.natom > 1 then st.out + "." else st.out;
    var natom := if st.natom > 1 then st.natom - 1 else st.natom;
    Parse(out + [c], st.nalt, natom + 1, st.paren)
  }

  /**
   * One input character. `None` is a NULL return: a `(` beyond 100 open
   * groups, or a `|`, `)`, `*`, `+` or `?` with no atom before it, or a `)`
   * with no open group.
   */
  function ScanChar(st: Parse, c: char): (r: Option<Parse>)
    ensures r.None? <==>
              || (c == '(' && |st.paren| >= MaxParen)
              || ((c == '|' || c == '*' || c == '+' || c == '?') && st.natom == 0)
              || (c == ')' && (st.paren == [] || st.natom == 0))
  {
    if c == '(' then OpenGroup(st)
    else if c == '|' then Alternate(st)
    else if c == ')' then CloseGroup(st)
    else if c == '*' || c == '+' || c == '?' then Repetition(st, c)
    else Some(Atom(st, c))
  }

  /** The converter's variables after reading all of `re`; `None` once a character was refused. */
  function Scan(re: string): Option<Parse> {
    if re == [] then Some(Parse([], 0, 0, []))
    else match Scan(re[..|re| - 1])
      case None => None
      case Some(st) => ScanChar(st, re[|re| - 1])
  }

  /**
   * The postfix form `re2post` returns, as written: `None` for an input of
   * 4000 characters or more, a refused character or an unclosed group;
   * otherwise the output followed by the pending dots and bars.
   */
  function Postfix(re: string): (r: Option<string>)
    ensures |re| >= BufSize / 2 ==> r.None?
  {
    if |re| >= BufSize / 2 then None
    else match Scan(re)
      case None => None
      case Some(st) =>
        if st.paren != [] then None
        else Some(st.out + Concats(st.natom) + Alternations(st.nalt))
  }

  /** Once a prefix is refused, so is every extension of it. */
  lemma {:induction false} ScanRefusalPersists(re: string, k: nat)
    requires k <= |re| && Scan(re[..k]).None?
    ensures Scan(re).None?
    decreases |re| - k
  {
    if k < |re| {
      assert re[..k + 1][..k] == re[..k];
      ScanRefusalPersists(re, k + 1);
    } else {
      assert re[..k] == re;
    }
  }

  /** `while(--natom > 0) *dst++ = '.';` */
  method EmitConcats(dst: string, natom: int) returns (dst': string, natom': int)
    ensures dst' == dst + Concats(natom)
    ensures natom' == if natom >= 1 then 0 else natom - 1
  {
    dst' := dst;
    natom' := natom - 1;
    while natom' > 0
      invariant natom' <= natom - 1
      invariant natom' >= 0 || natom' == natom - 1
      invariant dst' == dst + Repeat('.', natom - 1 - natom')
    {
      dst' := dst' + ".";
      natom' := natom' - 1;
    }
  }

  /** `for(; nalt > 0; nalt--) *dst++ = '|';` */
  method EmitAlternations(dst: string, nalt: int) returns (dst': string, nalt': int)
    ensures dst' == dst + Alternations(nalt)
    ensures nalt' == if nalt > 0 then 0 else nalt
  {
    dst' := dst;
    nalt' := nalt;
    while nalt' > 0
      invariant nalt' <= nalt
      invariant nalt' >= 0 || nalt' == nalt
      invariant dst' == dst + Repeat('|', nalt - nalt')
    {
      dst' := dst' + "|";
      nalt' := nalt' - 1;
    }
  }

  /** `re2post`: the postfix form of `re`, or `None` where the C function returns NULL. */
  method Re2Post(re: string) returns (r: Option<string>)
    ensures r == Postfix(re)
  {
    if |re| >= BufSize / 2 {
      return None;
    }
    var st := ScanLoop(re);
    if st.None? || st.value.paren != [] {
      return None;
    }
    var dst, natom := EmitConcats(st.value.out, st.value.natom);
    var nalt;
    dst, nalt := EmitAlternations(dst, st.value.nalt);
    return Some(dst);
  }

  /**
   * `re2post` with the guard its final step lacks: an expression that ends
   * with no pending atom (the empty one, or one ending in `|`) is refused.
   */
  method Re2PostChecked(re: string) returns (r: Option<string>)
    ensures r == PostfixChecked(re)
  {
    if |re| >= BufSize / 2 {
      return None;
    }
    var st := ScanLoop(re);
    if st.None? || st.value.paren != [] || st.value.natom == 0 {
      return None;
    }
    var dst, natom := EmitConcats(st.value.out, st.value.natom);
    var nalt;
    dst, nalt := EmitAlternations(dst, st.value.nalt);
    return Some(dst);
  }

  /** The main loop of `re2post`: the scanner's state after the whole of `re`, or `None` where it returns NULL. */
  method ScanLoop(re: string) returns (r: Option<Parse>)
    ensures r == Scan(re)
    ensures r.Some? ==> r.value.natom >= 0
  {
    var st := Parse([], 0, 0, []);
    var i := 0;
    while i < |re|
      invariant 0 <= i <= |re|
      invariant Scan(re[..i]) == Some(st)
      invariant st.natom >= 0 && forall k :: 0 <= k < |st.paren| ==> st.paren[k].natom >= 0
    {
      assert re[..i + 1][..i] == re[..i] && re[..i + 1][i] == re[i];
      assert Scan(re[..i + 1]) == ScanChar(st, re[i]);
      var next := ScanStep(st, re[i]);
      if next.None? {
        ScanRefusalPersists(re, i + 1);
        return None;
      }
      st := next.value;
      i := i + 1;
    }
    assert re[..i] == re;
    return Some(st);
  }

  /** One pass of the `switch` in the loop of `re2post`, on the scanner's state. */
  method ScanStep(st: Parse, c: char) returns (r: Option<Parse>)
    requires st.natom >= 0 && forall k :: 0 <= k < |st.paren| ==> st.paren[k].natom >= 0
    ensures r == ScanChar(st, c)
    ensures r.Some? ==> r.value.natom >= 0 && forall k :: 0 <= k < |r.value.paren| ==> r.value.paren[k].natom >= 0
  {
    var dst, nalt, natom, paren := st.out, st.nalt, st.natom, st.paren;
    if c == '(' {
      if natom > 1 {
        natom := natom - 1;
        dst := dst + ".";
      }
      if |paren| >= MaxParen {
        return None;
      }
      paren := paren + [Level(nalt, natom)];
      nalt := 0;
      natom := 0;
      assert Some(Parse(dst, nalt, natom, paren)) == OpenGroup(st);
    } else if c == '|' {
      if natom == 0 {
        return None;
      }
      dst, natom := EmitConcats(dst, natom);
      nalt := nalt + 1;
      assert Some(Parse(dst, nalt, natom, paren)) == Alternate(st);
    } else if c == ')' {
      if paren == [] || natom == 0 {
        return None;
      }
      dst, natom := EmitConcats(dst, natom);
      dst, nalt := EmitAlternations(dst, nalt);
      var top := paren[|paren| - 1];
      paren := paren[..|paren| - 1];
      nalt := top.nalt;
      natom := top.natom + 1;
      assert Some(Parse(dst, nalt, natom, paren)) == CloseGroup(st);
    } else if c == '*' || c == '+' || c == '?' {
      if natom == 0 {
        return None;
      }
      dst := dst + [c];
      assert Some(Parse(dst, nalt, natom, paren)) == Repetition(st, c);
    } else {
      if natom > 1 {
        natom := natom - 1;
        dst := dst + ".";
      }
      dst := dst + [c];
      natom := natom + 1;
      assert Parse(dst, nalt, natom, paren) == Atom(st, c);
    }
    return Some(Parse(dst, nalt, natom, paren));
  }

  // What the output keeps of the input.

  /** The operand characters of `s`, in order. */
  function Operands(s: string): (r: string)
    ensures |r| <= |s|
    ensures forall k :: 0 <= k < |r| ==> IsOperand(r[k])
  {
    if s == [] then []
    else Operands(s[..|s| - 1]) + (if IsOperand(s[|s| - 1]) then [s[|s| - 1]] else [])
  }

  lemma {:induction false} OperandsAppend(a: string, b: string)
    ensures Operands(a + b) == Operands(a) + Operands(b)
    decreases |b|
  {
    if b != [] {
      assert (a + b)[..|a + b| - 1] == a + b[..|b| - 1];
      OperandsAppend(a, b[..|b| - 1]);
    } else {
      assert a + b == a;
    }
  }

  lemma {:induction false} OperandsRepeat(c: char, n: int)
    requires !IsOperand(c)
    ensures Operands(Repeat(c, n)) == []
  {
    if n > 0 {
      OperandsRepeat(c, n - 1);
      OperandsAppend(Repeat(c, n - 1), [c]);
    }
  }

  lemma OperandsSingle(c: char)
    ensures Operands([c]) == if IsOperand(c) then [c] else []
  {
    assert [c][..0] == [];
  }

  /** What one accepted character appends to the output. */
  function Written(st: Parse, c: char): string {
    var join := if st.natom > 1 then "." else "";
    if c == '(' then join
    else if c == '|' then Concats(st.natom)
    else if c == ')' then Concats(st.natom) + Alternations(st.nalt)
    else if c == '*' || c == '+' || c == '?' then [c]
    else join + [c]
  }

  lemma ScanCharWrites(st: Parse, c: char)
    requires ScanChar(st, c).Some?
    ensures ScanChar(st, c).value.out == st.out + Written(st, c)
  {
    if c == '(' && st.natom <= 1 {
      assert st.out + "" == st.out;
    }
  }

  /** A string with no parenthesis. */
  predicate NoParens(s: string) {
    forall k :: 0 <= k < |s| ==> s[k] != '(' && s[k] != ')'
  }

  /** The output of one character keeps exactly that character's operand. */
  lemma WrittenOperands(st: Parse, c: char)
    ensures Operands(Written(st, c)) == if IsOperand(c) then [c] else []
  {
    OperandsSingle(c);
    OperandsRepeat('.', st.natom - 1);
    assert Operands("") == [];
    if c == ')' {
      OperandsRepeat('|', st.nalt);
      OperandsAppend(Concats(st.natom), Alternations(st.nalt));
    } else if !(c == '(' || c == '|' || c == '*' || c == '+' || c == '?') {
      OperandsSingle('.');
      var join := if st.natom > 1 then "." else "";
      OperandsAppend(join, [c]);
    }
  }

  /** ... and no parenthesis. */
  lemma WrittenNoParens(st: Parse, c: char)
    ensures NoParens(Written(st, c))
  {
  }

  /** While scanning, the output holds no parenthesis and the input's operands in order. */
  lemma {:induction false} ScanKeepsOperands(re: string)
    requires Scan(re).Some?
    ensures Operands(Scan(re).value.out) == Operands(re)
    ensures NoParens(Scan(re).value.out)
  {
    if re != [] {
      var front, c := re[..|re| - 1], re[|re| - 1];
      assert re == front + [c];
      ScanKeepsOperands(front);
      var st := Scan(front).value;
      ScanCharWrites(st, c);
      WrittenOperands(st, c);
      OperandsAppend(front, [c]);
      OperandsSingle(c);
      OperandsAppend(st.out, Written(st, c));
      WrittenNoParens(st, c);
      assert NoParens(st.out + Written(st, c));
    }
  }

  /**
   * On success the output contains no parentheses and keeps the operand
   * characters of the input, in input order.
   */
  lemma PostfixKeepsOperands(re: string)
    requires Postfix(re).Some?
    ensures NoParens(Postfix(re).value)
    ensures Operands(Postfix(re).value) == Operands(re)
  {
    var st := Scan(re).value;
    var dots, bars := Concats(st.natom), Alternations(st.nalt);
    assert Postfix(re).value == st.out + dots + bars;
    ScanKeepsOperands(re);
    OperandsRepeat('.', st.natom - 1);
    OperandsRepeat('|', st.nalt);
    OperandsAppend(st.out, Concats(st.natom));
    OperandsAppend(st.out + Concats(st.natom), Alternations(st.nalt));
  }

  // Postfix well-formedness: what the fragment stack of the NFA builder sees.

  /** The stack after one postfix character: binary operators pop two, unary ones one. */
  function DepthStep(d: nat, c: char): Option<nat> {
    if c == '.' || c == '|' then (if d >= 2 then Some(d - 1) else None)
    else if c == '*' || c == '+' || c == '?' then (if d >= 1 then Some(d) else None)
    else Some(d + 1)
  }

  /** The stack height after reading `s` from height `d`; `None` once an operator finds too few operands. */
  function DepthFrom(d: Option<nat>, s: string): Option<nat> {
    if s == [] then d
    else match DepthFrom(d, s[..|s| - 1])
      case None => None
      case Some(h) => DepthStep(h, s[|s| - 1])
  }

  /** The stack height after reading `s` from an empty stack. */
  function Depth(s: string): Option<nat> {
    DepthFrom(Some(0), s)
  }

  /** A postfix expression that leaves exactly one fragment and never runs short. */
  predicate WellFormed(s: string) {
    Depth(s) == Some(1)
  }

  lemma {:induction false} DepthFromAppend(d: Option<nat>, a: string, b: string)
    ensures DepthFrom(d, a + b) == DepthFrom(DepthFrom(d, a), b)
    decreases |b|
  {
    if b == [] {
      assert a + b == a;
    } else {
      assert (a + b)[..|a + b| - 1] == a + b[..|b| - 1];
      DepthFromAppend(d, a, b[..|b| - 1]);
    }
  }

  lemma {:induction false} DepthFromNone(s: string)
    ensures DepthFrom(None, s) == None
  {
    if s != [] {
      DepthFromNone(s[..|s| - 1]);
    }
  }

  /** `n` binary operators in a row reduce a stack of more than `n` fragments by `n`. */
  lemma {:induction false} DepthBinaryRun(c: char, d: nat, n: int)
    requires c == '.' || c == '|'
    requires n <= 0 || d > n
    ensures DepthFrom(Some(d), Repeat(c, n)) == Some(if n > 0 then d - n else d)
  {
    if n > 0 {
      var r := Repeat(c, n);
      assert r[..|r| - 1] == Repeat(c, n - 1) && r[|r| - 1] == c;
      DepthBinaryRun(c, d, n - 1);
    }
  }

  /** ... and `n >= d >= 1` of them run short. */
  lemma {:induction false} DepthBinaryShort(c: char, d: nat, n: int)
    requires c == '.' || c == '|'
    requires 1 <= d <= n
    ensures DepthFrom(Some(d), Repeat(c, n)) == None
  {
    var r := Repeat(c, n);
    assert r[..|r| - 1] == Repeat(c, n - 1) && r[|r| - 1] == c;
    if n - 1 >= d {
      DepthBinaryShort(c, d, n - 1);
    } else {
      DepthBinaryRun(c, d, n - 1);
    }
  }

  /** Appending `n` binary operators to an output of height more than `n`. */
  lemma AppendBinaryRun(out: string, c: char, d: nat, n: int)
    requires c == '.' || c == '|'
    requires Depth(out) == Some(d) && (n <= 0 || d > n)
    ensures Depth(out + Repeat(c, n)) == Some(if n > 0 then d - n else d)
  {
    DepthFromAppend(Some(0), out, Repeat(c, n));
    DepthBinaryRun(c, d, n);
  }

  /** Appending one character. */
  lemma AppendSingle(out: string, c: char, d: nat)
    requires Depth(out) == Some(d)
    ensures Depth(out + [c]) == DepthStep(d, c)
  {
    DepthFromAppend(Some(0), out, [c]);
    DepthSingle(d, c);
  }

  lemma DepthSingle(d: nat, c: char)
    ensures DepthFrom(Some(d), [c]) == DepthStep(d, c)
  {
    assert [c][..0] == [];
  }

  /** The fragments pending in the saved levels. */
  function Pending(paren: seq<Level>): int {
    if paren == [] then 0
    else Pending(paren[..|paren| - 1]) + paren[|paren| - 1].nalt + paren[|paren| - 1].natom
  }

  /**
   * The stack height of the output so far is the number of fragments still
   * pending: the completed alternatives and pending atoms of every level.
   */
  ghost predicate Balanced(st: Parse) {
    && st.nalt >= 0 && st.natom >= 0
    && (forall k :: 0 <= k < |st.paren| ==> st.paren[k].nalt >= 0 && st.paren[k].natom >= 0)
    && Pending(st.paren) >= 0
    && Depth(st.out) == Some(Pending(st.paren) + st.nalt + st.natom)
  }

  lemma {:induction false} PendingNonnegative(paren: seq<Level>)
    requires forall k :: 0 <= k < |paren| ==> paren[k].nalt >= 0 && paren[k].natom >= 0
    ensures Pending(paren) >= 0
  {
    if paren != [] {
      PendingNonnegative(paren[..|paren| - 1]);
    }
  }

  lemma OpenGroupBalanced(st: Parse)
    requires Balanced(st) && OpenGroup(st).Some?
    ensures Balanced(OpenGroup(st).value)
  {
    var st' := OpenGroup(st).value;
    if st.natom > 1 {
      AppendSingle(st.out, '.', Pending(st.paren) + st.nalt + st.natom);
    }
    assert st'.paren[..|st'.paren| - 1] == st.paren;
  }

  lemma AlternateBalanced(st: Parse)
    requires Balanced(st) && Alternate(st).Some?
    ensures Balanced(Alternate(st).value)
  {
    AppendBinaryRun(st.out, '.', Pending(st.paren) + st.nalt + st.natom, st.natom - 1);
  }

  lemma CloseGroupBalanced(st: Parse)
    requires Balanced(st) && CloseGroup(st).Some?
    ensures Balanced(CloseGroup(st).value)
  {
    var st' := CloseGroup(st).value;
    var p := Pending(st.paren);
    var top := st.paren[|st.paren| - 1];
    var rest := st.paren[..|st.paren| - 1];
    assert st'.paren == rest && st'.nalt == top.nalt && st'.natom == top.natom + 1;
    assert p == Pending(rest) + top.nalt + top.natom;
    var mid := st.out + Concats(st.natom);
    AppendBinaryRun(st.out, '.', p + st.nalt + st.natom, st.natom - 1);
    AppendBinaryRun(mid, '|', p + st.nalt + 1, st.nalt);
    assert forall k :: 0 <= k < |rest| ==> rest[k] == st.paren[k];
    PendingNonnegative(rest);
  }

  lemma RepetitionBalanced(st: Parse, c: char)
    requires Balanced(st) && (c == '*' || c == '+' || c == '?') && Repetition(st, c).Some?
    ensures Balanced(Repetition(st, c).value)
  {
    AppendSingle(st.out, c, Pending(st.paren) + st.nalt + st.natom);
  }

  lemma AtomBalanced(st: Parse, c: char)
    requires Balanced(st) && !IsOperator(c)
    ensures Balanced(Atom(st, c))
  {
    var out := if st.natom > 1 then st.out + "." else st.out;
    var natom := if st.natom > 1 then st.natom - 1 else st.natom;
    if st.natom > 1 {
      AppendSingle(st.out, '.', Pending(st.paren) + st.nalt + st.natom);
    }
    AppendSingle(out, c, Pending(st.paren) + st.nalt + natom);
  }

  /** One character keeps the output balanced, unless it is a literal `.`. */
  lemma ScanCharBalanced(st: Parse, c: char)
    requires Balanced(st) && c != '.' && ScanChar(st, c).Some?
    ensures Balanced(ScanChar(st, c).value)
  {
    if c == '(' {
      OpenGroupBalanced(st);
    } else if c == '|' {
      AlternateBalanced(st);
    } else if c == ')' {
      CloseGroupBalanced(st);
    } else if c == '*' || c == '+' || c == '?' {
      RepetitionBalanced(st, c);
    } else {
      AtomBalanced(st, c);
    }
  }

  /** Scanning an input without literal dots keeps the output balanced. */
  lemma {:induction false} ScanBalanced(re: string)
    requires '.' !in re && Scan(re).Some?
    ensures Balanced(Scan(re).value)
  {
    if re != [] {
      var front := re[..|re| - 1];
      assert forall k :: 0 <= k < |front| ==> front[k] == re[k];
      ScanBalanced(front);
      ScanCharBalanced(Scan(front).value, re[|re| - 1]);
    }
  }

  /**
   * `re2post` as it should end: an expression whose last level has no atom
   * pending (the empty expression, or one ending in `|`) is refused like
   * the other empty alternatives are.
   */
  function PostfixChecked(re: string): (r: Option<string>)
    ensures r.Some? ==> r == Postfix(re)
  {
    if |re| >= BufSize / 2 then None
    else match Scan(re)
      case None => None
      case Some(st) =>
        if st.paren != [] || st.natom == 0 then None
        else Some(st.out + Concats(st.natom) + Alternations(st.nalt))
  }

  /**
   * Without literal dots in the input, the corrected conversion yields a
   * well-formed postfix expression whenever it succeeds, and refuses exactly
   * the outputs of the original that are not well formed.
   */
  lemma CheckedWellFormed(re: string)
    requires '.' !in re
    ensures PostfixChecked(re).Some? ==> WellFormed(PostfixChecked(re).value)
    ensures PostfixChecked(re).None? && Postfix(re).Some? ==> !WellFormed(Postfix(re).value)
  {
    if |re| < BufSize / 2 && Scan(re).Some? && Scan(re).value.paren == [] {
      var st := Scan(re).value;
      var out := st.out + Concats(st.natom) + Alternations(st.nalt);
      assert Postfix(re) == Some(out);
      ScanBalanced(re);
      if st.natom > 0 {
        assert PostfixChecked(re) == Some(out);
        FinishWellFormed(st);
      } else {
        assert PostfixChecked(re) == None;
        FinishIllFormed(st);
      }
    } else {
      assert PostfixChecked(re) == None && Postfix(re) == None;
    }
  }

  /** The pending dots and bars close a balanced top level with an atom pending into one fragment. */
  lemma FinishWellFormed(st: Parse)
    requires Balanced(st) && st.paren == [] && st.natom > 0
    ensures WellFormed(st.out + Concats(st.natom) + Alternations(st.nalt))
  {
    AppendBinaryRun(st.out, '.', st.nalt + st.natom, st.natom - 1);
    AppendBinaryRun(st.out + Concats(st.natom), '|', st.nalt + 1, st.nalt);
  }

  /** ... and without one, they leave no fragment or run short. */
  lemma FinishIllFormed(st: Parse)
    requires Balanced(st) && st.paren == [] && st.natom == 0
    ensures !WellFormed(st.out + Concats(st.natom) + Alternations(st.nalt))
  {
    var mid := st.out + Concats(st.natom);
    assert mid == st.out;
    DepthFromAppend(Some(0), mid, Alternations(st.nalt));
    if st.nalt > 0 {
      DepthBinaryShort('|', st.nalt, st.nalt);
    }
  }

  /** Reading one more character. */
  lemma ScanSnoc(re: string, k: nat)
    requires k < |re|
    ensures Scan(re[..k + 1]) == match Scan(re[..k])
                                 case None => None
                                 case Some(st) => ScanChar(st, re[k])
  {
    assert re[..k + 1][..k] == re[..k];
  }

  lemma PostfixNumberExampleUpto3()
    ensures Scan(" 100* "[..3]) == Some(Parse(" 1.0", 0, 2, []))
  {
    var re := " 100* ";
    assert Scan(re[..0]) == Some(Parse([], 0, 0, []));
    assert "" + [' '] == " ";
    ScanSnoc(re, 0);
    assert ScanChar(Parse([], 0, 0, []), ' ') == Some(Parse(" ", 0, 1, []));
    assert " " + ['1'] == " 1";
    ScanSnoc(re, 1);
    assert ScanChar(Parse(" ", 0, 1, []), '1') == Some(Parse(" 1", 0, 2, []));
    assert " 1" + "." + ['0'] == " 1.0";
    ScanSnoc(re, 2);
    assert ScanChar(Parse(" 1", 0, 2, []), '0') == Some(Parse(" 1.0", 0, 2, []));
  }

  lemma PostfixNumberExampleUpto5()
    ensures Scan(" 100* "[..5]) == Some(Parse(" 1.0.0*", 0, 2, []))
  {
    var re := " 100* ";
    PostfixNumberExampleUpto3();
    assert " 1.0" + "." + ['0'] == " 1.0.0";
    ScanSnoc(re, 3);
    assert ScanChar(Parse(" 1.0", 0, 2, []), '0') == Some(Parse(" 1.0.0", 0, 2, []));
    assert " 1.0.0" + ['*'] == " 1.0.0*";
    ScanSnoc(re, 4);
    assert ScanChar(Parse(" 1.0.0", 0, 2, []), '*') == Some(Parse(" 1.0.0*", 0, 2, []));
  }

  lemma PostfixNumberExampleUpto6()
    ensures Scan(" 100* "[..6]) == Some(Parse(" 1.0.0*. ", 0, 2, []))
  {
    var re := " 100* ";
    PostfixNumberExampleUpto5();
    assert " 1.0.0*" + "." + [' '] == " 1.0.0*. ";
    ScanSnoc(re, 5);
    assert ScanChar(Parse(" 1.0.0*", 0, 2, []), ' ') == Some(Parse(" 1.0.0*. ", 0, 2, []));
  }

  /** The infix ` 100* ` becomes ` 1.0.0*. .`. */
  lemma PostfixNumberExample()
    ensures Postfix(" 100* ") == Some(" 1.0.0*. .")
  {
    var re := " 100* ";
    PostfixNumberExampleUpto6();
    assert re[..6] == re;
    assert Concats(2) == "." && Alternations(0) == "";
    assert " 1.0.0*. " + Concats(2) + Alternations(0) == " 1.0.0*. .";
  }

  lemma PostfixAlternationExampleUpto2()
    ensures Scan("hello|ba*b"[..2]) == Some(Parse("he", 0, 2, []))
  {
    var re := "hello|ba*b";
    assert Scan(re[..0]) == Some(Parse([], 0, 0, []));
    assert "" + ['h'] == "h";
    ScanSnoc(re, 0);
    assert ScanChar(Parse([], 0, 0, []), 'h') == Some(Parse("h", 0, 1, []));
    assert "h" + ['e'] == "he";
    ScanSnoc(re, 1);
    assert ScanChar(Parse("h", 0, 1, []), 'e') == Some(Parse("he", 0, 2, []));
  }

  lemma PostfixAlternationExampleUpto4()
    ensures Scan("hello|ba*b"[..4]) == Some(Parse("he.l.l", 0, 2, []))
  {
    var re := "hello|ba*b";
    PostfixAlternationExampleUpto2();
    assert "he" + "." + ['l'] == "he.l";
    ScanSnoc(re, 2);
    assert ScanChar(Parse("he", 0, 2, []), 'l') == Some(Parse("he.l", 0, 2, []));
    assert "he.l" + "." + ['l'] == "he.l.l";
    ScanSnoc(re, 3);
    assert ScanChar(Parse("he.l", 0, 2, []), 'l') == Some(Parse("he.l.l", 0, 2, []));
  }

  lemma PostfixAlternationExampleUpto6()
    ensures Scan("hello|ba*b"[..6]) == Some(Parse("he.l.l.o.", 1, 0, []))
  {
    var re := "hello|ba*b";
    PostfixAlternationExampleUpto4();
    assert "he.l.l" + "." + ['o'] == "he.l.l.o";
    ScanSnoc(re, 4);
    assert ScanChar(Parse("he.l.l", 0, 2, []), 'o') == Some(Parse("he.l.l.o", 0, 2, []));
    assert Concats(2) == "." && "he.l.l.o" + "." == "he.l.l.o.";
    ScanSnoc(re, 5);
    assert ScanChar(Parse("he.l.l.o", 0, 2, []), '|') == Some(Parse("he.l.l.o.", 1, 0, []));
  }

  lemma PostfixAlternationExampleUpto8()
    ensures Scan("hello|ba*b"[..8]) == Some(Parse("he.l.l.o.ba", 1, 2, []))
  {
    var re := "hello|ba*b";
    PostfixAlternationExampleUpto6();
    assert "he.l.l.o." + ['b'] == "he.l.l.o.b";
    ScanSnoc(re, 6);
    assert ScanChar(Parse("he.l.l.o.", 1, 0, []), 'b') == Some(Parse("he.l.l.o.b", 1, 1, []));
    assert "he.l.l.o.b" + ['a'] == "he.l.l.o.ba";
    ScanSnoc(re, 7);
    assert ScanChar(Parse("he.l.l.o.b", 1, 1, []), 'a') == Some(Parse("he.l.l.o.ba", 1, 2, []));
  }

  lemma PostfixAlternationExampleUpto10()
    ensures Scan("hello|ba*b"[..10]) == Some(Parse("he.l.l.o.ba*.b", 1, 2, []))
  {
    var re := "hello|ba*b";
    PostfixAlternationExampleUpto8();
    assert "he.l.l.o.ba" + ['*'] == "he.l.l.o.ba*";
    ScanSnoc(re, 8);
    assert ScanChar(Parse("he.l.l.o.ba", 1, 2, []), '*') == Some(Parse("he.l.l.o.ba*", 1, 2, []));
    assert "he.l.l.o.ba*" + "." + ['b'] == "he.l.l.o.ba*.b";
    ScanSnoc(re, 9);
    assert ScanChar(Parse("he.l.l.o.ba*", 1, 2, []), 'b') == Some(Parse("he.l.l.o.ba*.b", 1, 2, []));
  }

  /** The infix `hello|ba*b` becomes `he.l.l.o.ba*.b.|`. */
  lemma PostfixAlternationExample()
    ensures Postfix("hello|ba*b") == Some("he.l.l.o.ba*.b.|")
  {
    var re := "hello|ba*b";
    PostfixAlternationExampleUpto10();
    assert re[..10] == re;
    assert Concats(2) == "." && Alternations(1) == "|";
    assert "he.l.l.o.ba*.b" + Concats(2) + Alternations(1) == "he.l.l.o.ba*.b.|";
  }


  /** The conversion as written accepts a trailing `|` and the empty expression; neither is well formed. */
  lemma TrailingAlternationExample()
    ensures Postfix("a|") == Some("a|") && !WellFormed("a|")
    ensures Postfix("") == Some("") && !WellFormed("")
    ensures PostfixChecked("a|") == None && PostfixChecked("") == None
  {
    var init := Parse([], 0, 0, []);
    assert Scan([]) == Some(init);
    var re := "a|";
    assert re[..1][..0] == [] && re[..1][0] == 'a';
    assert Scan(re[..1]) == ScanChar(init, 'a');
    assert Atom(init, 'a') == Parse("a", 0, 1, []);
    assert Scan(re[..1]) == Some(Parse("a", 0, 1, []));
    assert re[..2][..1] == re[..1] && re[..2] == re;
    assert Scan(re) == Alternate(Parse("a", 0, 1, []));
    assert Concats(1) == [];
    assert "a" + [] == "a";
    assert Scan(re) == Some(Parse("a", 1, 0, []));
    assert Depth("a") == Some(1) by {
      DepthSingle(0, 'a');
    }
    assert "a|"[..1] == "a";
    assert Depth("a|") == None;
    assert Postfix(re) == Some("a" + Concats(0) + Alternations(1));
    assert Alternations(1) == "|" && Concats(0) == [];
    assert "a" + [] + "|" == "a|";
    assert Postfix([]) == Some([] + Concats(0) + Alternations(0));
    assert Alternations(0) == [] && [] + [] + [] == "";
    assert Depth("") == Some(0);
  }
}

/**
  `apply_filter`, the chain of list comprehensions a `SelectionFilter`
  switches on, and `_compare_values`, the operator table behind
  `select_by_attribute`.

  The host's answers (`cmds.nodeType`, `cmds.referenceQuery`, `_is_visible`)
  and the regular-expression search are parameters: the filter only combines
  them.
 */
module SelectionFilters {
  import opened Wrappers
  import opened Text
  import opened Seqs

  /**
    What the criteria ask of the host about a node name, and `search(pattern,
    text)` standing for `re.compile(pattern).search(text)` being truthy.
   */
  datatype Host = Host(
    nodeType: string -> string,
    isReferenced: string -> bool,
    isVisible: string -> bool,
    search: (string, string) -> bool)

  /**
    `SelectionFilter`. A criterion is off when its field is falsy in Python:
    `None`, an empty list or an empty string all read as off, so the optional
    list and string fields are plain values here with `[]` and `""` for off.
   */
  datatype SelectionFilter = SelectionFilter(
    nodeTypes: seq<string>,
    namePattern: string,
    excludePattern: string,
    namespace: string,
    referencedOnly: bool,
    nonReferencedOnly: bool,
    visibleOnly: bool,
    customFilter: Option<string -> bool>)

  /** `SelectionFilter()` with every field at its default: no criterion is on. */
  function NoFilter(): SelectionFilter {
    SelectionFilter([], "", "", "", false, false, false, None)
  }

  /** The short name the patterns are matched against: the text after the last `|` of a DAG path. */
  function ShortName(n: string): (r: string)
    ensures '|' !in r
    ensures '|' !in n ==> r == n
  {
    AfterLast(n, '|')
  }

  /** `[p]` when the criterion is on, `[]` when it is off. */
  function When(on: bool, p: string -> bool): seq<string -> bool> {
    if on then [p] else []
  }

  /** The conditions of the individual comprehensions. */
  function OfType(host: Host, types: seq<string>): string -> bool {
    n => host.nodeType(n) in types
  }

  function Matching(host: Host, pattern: string): string -> bool {
    n => host.search(pattern, ShortName(n))
  }

  function NotMatching(host: Host, pattern: string): string -> bool {
    n => !host.search(pattern, ShortName(n))
  }

  function InNamespace(ns: string): string -> bool {
    n => IsSubstring(ns + ":", n)
  }

  function NotReferenced(host: Host): string -> bool {
    n => !host.isReferenced(n)
  }

  function Custom(custom: Option<string -> bool>): string -> bool {
    if custom.Some? then custom.value else _ => true
  }

  /** The comprehensions `apply_filter` runs, in its order, each present only when its field is set. */
  function Criteria(host: Host, f: SelectionFilter): seq<string -> bool> {
    When(f.nodeTypes != [], OfType(host, f.nodeTypes))
    + (When(f.namePattern != "", Matching(host, f.namePattern))
    + (When(f.excludePattern != "", NotMatching(host, f.excludePattern))
    + (When(f.namespace != "", InNamespace(f.namespace))
    + (When(f.referencedOnly, host.isReferenced)
    + (When(f.nonReferencedOnly, NotReferenced(host))
    + (When(f.visibleOnly, host.isVisible)
    + When(f.customFilter.Some?, Custom(f.customFilter))))))))
  }

  /**
    The node passes every criterion the filter switches on: its type is listed,
    its short name matches the name pattern and not the exclude pattern, its
    full name contains `"<namespace>:"`, its reference state is the one asked
    for, it is visible, and the custom predicate accepts it.
   */
  predicate Admits(host: Host, f: SelectionFilter, n: string) {
    && (f.nodeTypes != [] ==> host.nodeType(n) in f.nodeTypes)
    && (f.namePattern != "" ==> host.search(f.namePattern, ShortName(n)))
    && (f.excludePattern != "" ==> !host.search(f.excludePattern, ShortName(n)))
    && (f.namespace != "" ==> IsSubstring(f.namespace + ":", n))
    && (f.referencedOnly ==> host.isReferenced(n))
    && (f.nonReferencedOnly ==> !host.isReferenced(n))
    && (f.visibleOnly ==> host.isVisible(n))
    && (f.customFilter.Some? ==> f.customFilter.value(n))
  }

  lemma AllHoldWhen(on: bool, p: string -> bool, rest: seq<string -> bool>, n: string)
    ensures AllHold(When(on, p) + rest, n) <==> (on ==> p(n)) && AllHold(rest, n)
  {
    AllHoldAppend(When(on, p), rest, n);
    if on {
      assert When(on, p)[0] == p;
    }
  }

  /** Passing the chain of enabled criteria is exactly being admitted by the filter. */
  lemma CriteriaMeanAdmits(host: Host, f: SelectionFilter, n: string)
    ensures AllHold(Criteria(host, f), n) <==> Admits(host, f, n)
  {
    var c7 := When(f.customFilter.Some?, Custom(f.customFilter));
    AllHoldWhen(f.customFilter.Some?, Custom(f.customFilter), [], n);
    assert c7 + [] == c7;
    var c6 := When(f.visibleOnly, host.isVisible) + c7;
    AllHoldWhen(f.visibleOnly, host.isVisible, c7, n);
    var c5 := When(f.nonReferencedOnly, NotReferenced(host)) + c6;
    AllHoldWhen(f.nonReferencedOnly, NotReferenced(host), c6, n);
    var c4 := When(f.referencedOnly, host.isReferenced) + c5;
    AllHoldWhen(f.referencedOnly, host.isReferenced, c5, n);
    var c3 := When(f.namespace != "", InNamespace(f.namespace)) + c4;
    AllHoldWhen(f.namespace != "", InNamespace(f.namespace), c4, n);
    var c2 := When(f.excludePattern != "", NotMatching(host, f.excludePattern)) + c3;
    AllHoldWhen(f.excludePattern != "", NotMatching(host, f.excludePattern), c3, n);
    var c1 := When(f.namePattern != "", Matching(host, f.namePattern)) + c2;
    AllHoldWhen(f.namePattern != "", Matching(host, f.namePattern), c2, n);
    AllHoldWhen(f.nodeTypes != [], OfType(host, f.nodeTypes), c1, n);
  }

  /**
    `apply_filter(nodes, config)`: the nodes the enabled criteria keep, in
    their original order; each criterion only removes nodes.
   */
  function ApplyFilter(host: Host, nodes: seq<string>, f: SelectionFilter): (r: seq<string>)
    ensures IsSubsequence(r, nodes)
    ensures forall n :: n in r <==> n in nodes && Admits(host, f, n)
    ensures NoDup(nodes) ==> NoDup(r)
  {
    forall n ensures AllHold(Criteria(host, f), n) <==> Admits(host, f, n) {
      CriteriaMeanAdmits(host, f, n);
    }
    FilterChain(nodes, Criteria(host, f))
  }

  /** Admission as a condition, for the one-pass comprehension. */
  function Admitted(host: Host, f: SelectionFilter): string -> bool {
    n => Admits(host, f, n)
  }

  /**
    Running the comprehensions one after another is one comprehension with all
    enabled conditions: the order of the criteria does not change the result.
   */
  lemma ApplyFilterIsOnePass(host: Host, nodes: seq<string>, f: SelectionFilter)
    ensures ApplyFilter(host, nodes, f) == Keep(nodes, Admitted(host, f))
  {
    forall n ensures Admitted(host, f)(n) == AllHold(Criteria(host, f), n) {
      CriteriaMeanAdmits(host, f, n);
    }
    FilterChainIsOnePass(nodes, Criteria(host, f), Admitted(host, f));
  }

  /** With no criterion set the output equals the input, duplicates and order included. */
  lemma NoFilterKeepsAll(host: Host, nodes: seq<string>)
    ensures ApplyFilter(host, nodes, NoFilter()) == nodes
  {
    assert Criteria(host, NoFilter()) == [];
  }

  /**
    A namespace-only filter keeps exactly the names containing `"<namespace>:"`,
    wherever it occurs: a name qualified by that namespace under any DAG
    prefix passes.
   */
  lemma NamespaceFilterKeepsQualified(host: Host, nodes: seq<string>, ns: string, prefix: string, short: string)
    requires ns != ""
    ensures forall n :: n in ApplyFilter(host, nodes, NoFilter().(namespace := ns)) <==> n in nodes && IsSubstring(ns + ":", n)
    ensures IsSubstring(ns + ":", prefix + ns + ":" + short)
  {
    var s := prefix + ns + ":" + short;
    assert s[|prefix|..|prefix| + |ns + ":"|] == ns + ":";
    assert OccursAt(ns + ":", s, |prefix|);
  }

  // ---------------------------------------------------------------------------
  // _compare_values

  /** An attribute value: ints, floats and bools compare as numbers, strings as strings. */
  datatype Value = Num(x: real) | Str(s: string)

  /** Python's `<` on two strings: code-point lexicographic order, a proper prefix first. */
  predicate LexLess(a: string, b: string) {
    if a == [] then b != []
    else if b == [] then false
    else if a[0] != b[0] then a[0] < b[0]
    else LexLess(a[1..], b[1..])
  }

  /** Python's `<=` on two strings. */
  predicate LexLessEq(a: string, b: string) {
    if a == [] then true
    else if b == [] then false
    else if a[0] != b[0] then a[0] < b[0]
    else LexLessEq(a[1..], b[1..])
  }

  /** `x < y`; `None` where Python raises `TypeError`, between a number and a string. */
  function Less(a: Value, b: Value): Option<bool> {
    match (a, b)
    case (Num(x), Num(y)) => Some(x < y)
    case (Str(s), Str(t)) => Some(LexLess(s, t))
    case _ => None
  }

  /** `x <= y`; `None` between a number and a string. */
  function LessEq(a: Value, b: Value): Option<bool> {
    match (a, b)
    case (Num(x), Num(y)) => Some(x <= y)
    case (Str(s), Str(t)) => Some(LexLessEq(s, t))
    case _ => None
  }

  /** The keys of the operator table. */
  const Operators: set<string> := {"==", "!=", "<", ">", "<=", ">="}

  /**
    `_compare_values(a, b, op)`: the table's lambda for `op`, and the `==`
    lambda for any operator the table lacks. `None` stands for the
    `TypeError` an ordering between a number and a string raises.
   */
  function CompareValues(a: Value, b: Value, op: string): (r: Option<bool>)
    ensures op !in Operators ==> r == Some(a == b)
    ensures op == "==" ==> r == Some(a == b)
    ensures op == "!=" ==> r == Some(a != b)
    ensures op in {"<", ">", "<=", ">="} ==> (r.None? <==> a.Num? != b.Num?)
    ensures a.Num? && b.Num? && op == "<" ==> r == Some(a.x < b.x)
    ensures a.Num? && b.Num? && op == "<=" ==> r == Some(a.x <= b.x)
    ensures a.Num? && b.Num? && op == ">" ==> r == Some(a.x > b.x)
    ensures a.Num? && b.Num? && op == ">=" ==> r == Some(a.x >= b.x)
    ensures a.Str? && b.Str? && op == "<" ==> r == Some(LexLess(a.s, b.s))
    ensures a.Str? && b.Str? && op == "<=" ==> r == Some(LexLessEq(a.s, b.s))
    ensures a.Str? && b.Str? && op == ">" ==> r == Some(LexLess(b.s, a.s))
    ensures a.Str? && b.Str? && op == ">=" ==> r == Some(LexLessEq(b.s, a.s))
  {
    if op == "!=" then Some(a != b)
    else if op == "<" then Less(a, b)
    else if op == ">" then Less(b, a)
    else if op == "<=" then LessEq(a, b)
    else if op == ">=" then LessEq(b, a)
    else Some(a == b)
  }

  /** A string is below another or above it or equal to it, and only one of these. */
  lemma {:induction false} LexTrichotomy(a: string, b: string)
    ensures LexLess(a, b) || a == b || LexLess(b, a)
    ensures !(LexLess(a, b) && LexLess(b, a))
    ensures LexLess(a, b) ==> a != b
  {
    if a != [] && b != [] && a[0] == b[0] {
      LexTrichotomy(a[1..], b[1..]);
      assert a == [a[0]] + a[1..] && b == [b[0]] + b[1..];
    }
  }

  /**
    The order Python documents for strings: `a` is a proper prefix of `b`,
    or at the first position where they differ `a` holds the smaller code point.
   */
  predicate FirstDifferenceBelow(a: string, b: string) {
    || (|a| < |b| && a == b[..|a|])
    || (exists k :: 0 <= k < |a| && k < |b| && a[..k] == b[..k] && a[k] < b[k])
  }

  /** A shared first character does not change where two strings first differ. */
  lemma FirstDifferenceAfterCommonHead(a: string, b: string)
    requires a != [] && b != [] && a[0] == b[0]
    ensures FirstDifferenceBelow(a, b) <==> FirstDifferenceBelow(a[1..], b[1..])
  {
    if exists k :: 0 <= k < |a| && k < |b| && a[..k] == b[..k] && a[k] < b[k] {
      var k :| 0 <= k < |a| && k < |b| && a[..k] == b[..k] && a[k] < b[k];
      assert a[1..][..k - 1] == a[1..k] == b[1..k] == b[1..][..k - 1];
      assert a[1..][k - 1] < b[1..][k - 1];
    }
    if exists k :: 0 <= k < |a| - 1 && k < |b| - 1 && a[1..][..k] == b[1..][..k] && a[1..][k] < b[1..][k] {
      var k :| 0 <= k < |a| - 1 && k < |b| - 1 && a[1..][..k] == b[1..][..k] && a[1..][k] < b[1..][k];
      assert a[..k + 1] == [a[0]] + a[1..][..k] == [b[0]] + b[1..][..k] == b[..k + 1];
      assert a[k + 1] < b[k + 1];
    }
    if |a| < |b| && a == b[..|a|] {
      assert a[1..] == b[1..][..|a| - 1];
    }
    if |a| - 1 < |b| - 1 && a[1..] == b[1..][..|a| - 1] {
      assert a == [a[0]] + a[1..] == [b[0]] + b[1..][..|a| - 1] == b[..|a|];
    }
  }

  /** `LexLess` is Python's documented string order. */
  lemma {:induction false} LexLessIsFirstDifference(a: string, b: string)
    ensures LexLess(a, b) <==> FirstDifferenceBelow(a, b)
  {
    if a != [] && b != [] && a[0] == b[0] {
      LexLessIsFirstDifference(a[1..], b[1..]);
      FirstDifferenceAfterCommonHead(a, b);
    } else if a != [] && b != [] {
      assert a[..0] == b[..0];
    }
  }

  /** Python's `<=` on strings is `<` or `==`. */
  lemma {:induction false} LexLessEqIsLessOrEqual(a: string, b: string)
    ensures LexLessEq(a, b) <==> LexLess(a, b) || a == b
  {
    if a != [] && b != [] && a[0] == b[0] {
      LexLessEqIsLessOrEqual(a[1..], b[1..]);
      assert a == [a[0]] + a[1..] && b == [b[0]] + b[1..];
    }
  }

  /** `!=` answers the opposite of `==`, and `>` and `>=` are `<` and `<=` with the operands swapped. */
  lemma OperatorDuality(a: Value, b: Value)
    ensures CompareValues(a, b, "!=") == Some(!CompareValues(a, b, "==").value)
    ensures CompareValues(a, b, ">") == CompareValues(b, a, "<")
    ensures CompareValues(a, b, ">=") == CompareValues(b, a, "<=")
  {
  }

  /**
    Between two numbers or two strings, `<=` holds exactly when `<` or `==`
    does, and exactly one of `<`, `==` and `>` holds.
   */
  lemma OrderingOfLikeValues(a: Value, b: Value)
    requires a.Num? == b.Num?
    ensures CompareValues(a, b, "<=").value <==> CompareValues(a, b, "<").value || CompareValues(a, b, "==").value
    ensures CompareValues(a, b, "<").value || CompareValues(a, b, "==").value || CompareValues(a, b, ">").value
    ensures !(CompareValues(a, b, "<").value && CompareValues(a, b, ">").value)
    ensures CompareValues(a, b, "==").value ==> !CompareValues(a, b, "<").value && !CompareValues(a, b, ">").value
  {
    if a.Str? {
      LexTrichotomy(a.s, b.s);
      LexLessEqIsLessOrEqual(a.s, b.s);
    }
  }
}

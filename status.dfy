/**
 * The exit codes of the command-line tools: an `ExitCode` pairs a number
 * with a name and prints as "<number> (<name>)"; `ExitCodes` and its
 * subclasses are an extensible enumeration of them. Defining a subclass
 * walks every class in its ancestry once and refuses the definition when
 * an ancestor is not itself an `ExitCodes` class, when a public attribute
 * is not an `ExitCode`, when two definitions share a name, or when two
 * share a code number; the codes of the base class (0, 1 and 2) are
 * therefore reserved. The enumeration classes cannot be instantiated.
 *
 * Classes are records in a hierarchy map keyed by class identity; the
 * built-in `object`, where every ancestry ends, is the identity `Object`
 * and has no record.
 */
module Status {
  import opened Products

  datatype ExitCode = ExitCode(code: int, name: string)

  // ---------------------------------------------------------------------
  // The printed form of an exit code
  // ---------------------------------------------------------------------

  predicate IsDigit(c: char) { '0' <= c <= '9' }

  predicate AllDigits(s: string) {
    forall i :: 0 <= i < |s| ==> IsDigit(s[i])
  }

  function DigitChar(d: nat): (c: char)
    requires d < 10
    ensures IsDigit(c)
  {
    (48 + d) as char
  }

  function DigitValue(c: char): nat
    requires IsDigit(c)
  {
    (c as int) - 48
  }

  /** The decimal digits of `n`, most significant first, with no leading zero. */
  function Digits(n: nat): (s: string)
    ensures |s| > 0 && AllDigits(s)
    ensures s[0] == '0' ==> n == 0 && |s| == 1
    ensures ParseDigits(s) == n
  {
    if n < 10 then [DigitChar(n)]
    else
      var s := Digits(n / 10) + [DigitChar(n % 10)];
      assert s[..|s| - 1] == Digits(n / 10);
      s
  }

  /**
   * Python's `str` of an integer: a minus sign for negative numbers, then
   * the digits. The text reads back as the same integer.
   */
  function Decimal(i: int): (s: string)
    ensures |s| > 0 && (s[0] == '-' <==> i < 0)
    ensures forall j :: 0 <= j < |s| ==> s[j] != ' '
    ensures ParseDecimal(s) == Some(i)
  {
    if i < 0 then
      var s := "-" + Digits(-i);
      assert s[1..] == Digits(-i);
      s
    else Digits(i)
  }

  /**
   * `ExitCode.__str__`: the code in decimal, a space, and the name in
   * parentheses. The printed form determines the exit code: reading it
   * back gives the same code and name, whatever characters the name holds.
   */
  function Text(e: ExitCode): (t: string)
    ensures ParseText(t) == Some(e)
  {
    ParseTextOf(Decimal(e.code), e.code, e.name);
    Decimal(e.code) + " (" + e.name + ")"
  }

  /** A number text without spaces, a space and a parenthesised name read back as that pair. */
  lemma ParseTextOf(d: string, code: int, name: string)
    requires forall j :: 0 <= j < |d| ==> d[j] != ' '
    requires ParseDecimal(d) == Some(code)
    ensures ParseText(d + " (" + name + ")") == Some(ExitCode(code, name))
  {
    var t := d + " (" + name + ")";
    assert forall j :: 0 <= j < |d| ==> t[j] == d[j];
    assert t[|d|] == ' ';
    assert FirstSpace(t) == Some(|d|);
    assert t[..|d|] == d;
    assert t[|d| + 1..] == "(" + name + ")";
  }

  function ParseDigits(s: string): nat
    requires AllDigits(s)
  {
    if |s| == 0 then 0 else ParseDigits(s[..|s| - 1]) * 10 + DigitValue(s[|s| - 1])
  }

  /** Reads back an optionally signed decimal number; None for anything else. */
  function ParseDecimal(s: string): Option<int> {
    if |s| > 1 && s[0] == '-' && AllDigits(s[1..]) then Some(-(ParseDigits(s[1..]) as int))
    else if |s| > 0 && AllDigits(s) then Some(ParseDigits(s))
    else None
  }

  /** The position of the first space in `s`. */
  function FirstSpace(s: string): (r: Option<nat>)
    ensures r.Some? ==> r.value < |s| && s[r.value] == ' '
    ensures r.Some? ==> forall j :: 0 <= j < r.value ==> s[j] != ' '
    ensures r.None? <==> forall j :: 0 <= j < |s| ==> s[j] != ' '
  {
    if |s| == 0 then None
    else if s[0] == ' ' then Some(0)
    else match FirstSpace(s[1..])
      case None => None
      case Some(k) => Some(k + 1)
  }

  /**
   * Reads an exit code back from its printed form: the number runs up to
   * the first space, and the name is what the parentheses after it enclose.
   */
  function ParseText(s: string): Option<ExitCode> {
    match FirstSpace(s)
    case None => None
    case Some(k) =>
      var rest := s[k + 1..];
      if |rest| >= 2 && rest[0] == '(' && rest[|rest| - 1] == ')' then
        match ParseDecimal(s[..k])
        case None => None
        case Some(code) => Some(ExitCode(code, rest[1..|rest| - 1]))
      else None
  }

  /** Two exit codes print alike only when they are the same. */
  lemma TextInjective(a: ExitCode, b: ExitCode)
    requires Text(a) == Text(b)
    ensures a == b
  {
  }

  // ---------------------------------------------------------------------
  // Classes as records
  // ---------------------------------------------------------------------

  type ClassId = nat

  /** The built-in `object`, the parent of `ExitCodes`. */
  const Object: ClassId := 0
  /** The base enumeration class `ExitCodes`. */
  const ExitCodesClass: ClassId := 1

  /** A class attribute's value: an exit code, or anything else. */
  datatype Value = Code(exitCode: ExitCode) | Other

  datatype Attr = Attr(name: string, value: Value)

  /**
   * A class: its name, its direct bases in declaration order, the entries
   * of its own namespace in definition order, and whether it is a
   * subclass of `ExitCodes` (what `issubclass` answers).
   */
  datatype ClassInfo = ClassInfo(name: string, bases: seq<ClassId>, attrs: seq<Attr>, isExitCodes: bool)

  type Hierarchy = map<ClassId, ClassInfo>

  /** Names starting with an underscore are not public. */
  predicate Public(name: string) {
    !(|name| > 0 && name[0] == '_')
  }

  /**
   * What Python guarantees of any class hierarchy: `object` has no
   * record here, every base of a class is `object` or a class of the
   * hierarchy, and a namespace holds each name once.
   */
  ghost predicate WellFormed(h: Hierarchy) {
    Object !in h
    && (forall c, b :: c in h && b in h[c].bases ==> b == Object || b in h)
    && (forall c, i, j :: c in h && 0 <= i < j < |h[c].attrs| ==> h[c].attrs[i].name != h[c].attrs[j].name)
  }

  const SUCCESS := ExitCode(0, "success")
  const INTERNAL_ERROR := ExitCode(1, "internal error")
  const CLI_ERROR := ExitCode(2, "commandline error")

  /**
   * The record of `ExitCodes` itself: three public codes among its private
   * entries. On its own it is a valid enumeration: its public entries are
   * exit codes with distinct names and distinct numbers.
   */
  function BaseClass(): (c: ClassInfo)
    ensures c.isExitCodes && c.bases == [Object]
    ensures forall j :: 0 <= j < |c.attrs| && Public(c.attrs[j].name) ==> 2 <= j <= 4
    ensures |c.attrs| >= 5 && c.attrs[2..5] == [ Attr("SUCCESS", Code(SUCCESS)),
      Attr("INTERNAL_ERROR", Code(INTERNAL_ERROR)), Attr("CLI_ERROR", Code(CLI_ERROR)) ]
  {
    ClassInfo("ExitCodes", [Object],
      [ Attr("__module__", Other), Attr("__doc__", Other),
        Attr("SUCCESS", Code(SUCCESS)), Attr("INTERNAL_ERROR", Code(INTERNAL_ERROR)),
        Attr("CLI_ERROR", Code(CLI_ERROR)),
        Attr("__init_subclass__", Other), Attr("__new__", Other) ],
      true)
  }

  // ---------------------------------------------------------------------
  // Ancestry
  // ---------------------------------------------------------------------

  ghost predicate IsPath(h: Hierarchy, p: seq<ClassId>) {
    |p| > 0 && forall i :: 0 <= i < |p| - 1 ==> p[i] in h && p[i + 1] in h[p[i]].bases
  }

  /** `to` is reached from `from` by following bases. */
  ghost predicate Reaches(h: Hierarchy, from: ClassId, to: ClassId) {
    exists p :: IsPath(h, p) && p[0] == from && p[|p| - 1] == to
  }

  /** The classes in the ancestry of `cls`, itself included and `object` excluded. */
  ghost function Ancestry(h: Hierarchy, cls: ClassId): set<ClassId> {
    set c | c in h && Reaches(h, cls, c)
  }

  lemma ReachesSelf(h: Hierarchy, c: ClassId)
    ensures Reaches(h, c, c)
  {
    assert IsPath(h, [c]);
  }

  lemma ReachesBase(h: Hierarchy, cls: ClassId, c: ClassId, b: ClassId)
    requires Reaches(h, cls, c) && c in h && b in h[c].bases
    ensures Reaches(h, cls, b)
  {
    var p :| IsPath(h, p) && p[0] == cls && p[|p| - 1] == c;
    var q := p + [b];
    assert forall i :: 0 <= i < |q| - 1 ==> q[i] in h && q[i + 1] in h[q[i]].bases by {
      forall i | 0 <= i < |q| - 1 ensures q[i] in h && q[i + 1] in h[q[i]].bases {
        if i < |p| - 1 {
          assert q[i] == p[i] && q[i + 1] == p[i + 1];
        }
      }
    }
    assert IsPath(h, q);
  }

  /** Every node of a path from a member of a base-closed set stays in the set. */
  lemma {:induction false} PathWithin(h: Hierarchy, s: set<ClassId>, p: seq<ClassId>, n: nat)
    requires IsPath(h, p) && p[0] in s && n < |p|
    requires forall c, b :: c in s && c in h && b in h[c].bases ==> b in s
    ensures p[n] in s
  {
    if n > 0 {
      PathWithin(h, s, p, n - 1);
    }
  }

  /** A set that holds `cls` and the bases of each of its classes holds the whole ancestry. */
  lemma AncestryWithin(h: Hierarchy, cls: ClassId, s: set<ClassId>)
    requires cls in s
    requires forall c, b :: c in s && c in h && b in h[c].bases ==> b in s
    ensures Ancestry(h, cls) <= s
  {
    forall d | d in Ancestry(h, cls) ensures d in s {
      var p :| IsPath(h, p) && p[0] == cls && p[|p| - 1] == d;
      PathWithin(h, s, p, |p| - 1);
    }
  }

  // ---------------------------------------------------------------------
  // What a valid definition is, and why one is refused
  // ---------------------------------------------------------------------

  /** Class `c`'s entry `j` is public and named `n`. */
  ghost predicate Defines(h: Hierarchy, c: ClassId, j: int, n: string) {
    c in h && 0 <= j < |h[c].attrs| && Public(h[c].attrs[j].name) && h[c].attrs[j].name == n
  }

  /** Class `c`'s entry `j` is the public exit code `n` with number `k`. */
  ghost predicate DefinesCode(h: Hierarchy, c: ClassId, j: int, n: string, k: int) {
    Defines(h, c, j, n) && h[c].attrs[j].value.Code? && h[c].attrs[j].value.exitCode.code == k
  }

  /**
   * The conditions under which defining `cls` succeeds: every class of its
   * ancestry is an `ExitCodes` class, every public entry of those classes
   * is an exit code, and no name and no code number is defined twice.
   */
  ghost predicate Valid(h: Hierarchy, cls: ClassId) {
    var a := Ancestry(h, cls);
    (forall c :: c in a ==> h[c].isExitCodes)
    && (forall c, j, n :: c in a && Defines(h, c, j, n) ==> h[c].attrs[j].value.Code?)
    && (forall c, i, d, j, n :: c in a && d in a && Defines(h, c, i, n) && Defines(h, d, j, n) ==> c == d && i == j)
    && (forall c, i, n, d, j, m, k :: c in a && d in a && DefinesCode(h, c, i, n, k) && DefinesCode(h, d, j, m, k) ==> c == d && i == j)
  }

  /** Why a definition is refused; Python raises ValueError in each case. */
  datatype Rejection =
    | NotPure(cls: ClassId)                                   // not a subclass of ExitCodes
    | NotExitCode(cls: ClassId, name: string)                 // a public entry that is not an ExitCode
    | DuplicateName(first: ClassId, cls: ClassId, name: string)
    | DuplicateCode(first: ClassId, firstName: string, cls: ClassId, name: string, code: int)

  datatype Outcome = Accepted | Rejected(reason: Rejection)

  /** The refusal is justified by classes of `a`. */
  ghost predicate Explains(h: Hierarchy, a: set<ClassId>, reason: Rejection) {
    match reason
    case NotPure(c) => c in a && c in h && !h[c].isExitCodes
    case NotExitCode(c, n) => c in a && exists j :: Defines(h, c, j, n) && h[c].attrs[j].value.Other?
    case DuplicateName(f, c, n) =>
      f in a && c in a && exists i, j :: Defines(h, f, i, n) && Defines(h, c, j, n) && (f != c || i != j)
    case DuplicateCode(f, fn, c, n, k) =>
      f in a && c in a && exists i, j :: DefinesCode(h, f, i, fn, k) && DefinesCode(h, c, j, n, k) && (f != c || i != j)
  }

  /** A justified refusal is a violation of Valid. */
  lemma ExplainsInvalid(h: Hierarchy, cls: ClassId, reason: Rejection)
    requires Explains(h, Ancestry(h, cls), reason)
    ensures !Valid(h, cls)
  {
    var a := Ancestry(h, cls);
    match reason
    case NotPure(c) =>
    case NotExitCode(c, n) =>
      var j :| Defines(h, c, j, n) && h[c].attrs[j].value.Other?;
    case DuplicateName(f, c, n) =>
      var i, j :| Defines(h, f, i, n) && Defines(h, c, j, n) && (f != c || i != j);
    case DuplicateCode(f, fn, c, n, k) =>
      var i, j :| DefinesCode(h, f, i, fn, k) && DefinesCode(h, c, j, n, k) && (f != c || i != j);
  }

  /**
   * `ExitCodes` on its own is a valid enumeration: a well-formed hierarchy
   * whose only class passes every check of the walk.
   */
  /** The namespace of `ExitCodes` holds each name once. */
  lemma BaseNamesDistinct()
    ensures forall i, j :: 0 <= i < j < |BaseClass().attrs| ==> BaseClass().attrs[i].name != BaseClass().attrs[j].name
  {
    var names := seq(|BaseClass().attrs|, k requires 0 <= k < |BaseClass().attrs| => BaseClass().attrs[k].name);
    assert names == ["__module__", "__doc__", "SUCCESS", "INTERNAL_ERROR", "CLI_ERROR", "__init_subclass__", "__new__"];
    forall i, j | 0 <= i < j < |names| ensures names[i] != names[j] {
      if |names[i]| == |names[j]| {
        assert names[i][0] != names[j][0] || names[i][2] != names[j][2];
      }
    }
  }

  /** In a hierarchy of one class, the ancestry of that class is the class alone. */
  lemma OnlyClassAncestry(h: Hierarchy)
    requires h.Keys == {ExitCodesClass}
    ensures Ancestry(h, ExitCodesClass) <= {ExitCodesClass}
  {
  }

  lemma BaseClassValid()
    ensures WellFormed(map[ExitCodesClass := BaseClass()])
    ensures Valid(map[ExitCodesClass := BaseClass()], ExitCodesClass)
  {
    var attrs := BaseClass().attrs;
    BaseNamesDistinct();
    forall i, j | 0 <= i < j < |attrs| && Public(attrs[i].name) && Public(attrs[j].name)
      ensures attrs[i].value.Code? && attrs[j].value.Code? && attrs[i].value.exitCode.code != attrs[j].value.exitCode.code
    {
      assert attrs[i].value.exitCode.code == i - 2;
      assert attrs[j].value.exitCode.code == j - 2;
    }
    SingleClassValid(map[ExitCodesClass := BaseClass()]);
  }

  /**
   * A lone `ExitCodes` class is valid when its public entries are exit
   * codes with distinct numbers and its namespace holds each name once.
   */
  lemma SingleClassValid(h: Hierarchy)
    requires h.Keys == {ExitCodesClass} && h[ExitCodesClass].isExitCodes && h[ExitCodesClass].bases == [Object]
    requires var attrs := h[ExitCodesClass].attrs;
      forall i, j :: 0 <= i < j < |attrs| ==> attrs[i].name != attrs[j].name
    requires var attrs := h[ExitCodesClass].attrs;
      forall i, j :: 0 <= i < j < |attrs| && Public(attrs[i].name) && Public(attrs[j].name) ==>
        attrs[i].value.Code? && attrs[j].value.Code? && attrs[i].value.exitCode.code != attrs[j].value.exitCode.code
    requires var attrs := h[ExitCodesClass].attrs;
      forall j :: 0 <= j < |attrs| && Public(attrs[j].name) ==> attrs[j].value.Code?
    ensures WellFormed(h)
    ensures Valid(h, ExitCodesClass)
  {
    var a := Ancestry(h, ExitCodesClass);
    OnlyClassAncestry(h);
    forall c, i, n, d, j, m, k | c in a && d in a && DefinesCode(h, c, i, n, k) && DefinesCode(h, d, j, m, k)
      ensures c == d && i == j
    {
      assert c == ExitCodesClass && d == ExitCodesClass;
      if i < j {
        assert false;
      } else if j < i {
        assert false;
      }
    }
  }

  /**
   * Once the base class is in the ancestry of a valid definition, no other
   * class of that ancestry uses the names SUCCESS, INTERNAL_ERROR or
   * CLI_ERROR, nor the codes 0, 1 or 2.
   */
  lemma Reserved(h: Hierarchy, cls: ClassId, d: ClassId, j: int, n: string)
    requires ExitCodesClass in h && h[ExitCodesClass] == BaseClass()
    requires ExitCodesClass in Ancestry(h, cls) && Valid(h, cls)
    requires d in Ancestry(h, cls) && d != ExitCodesClass && Defines(h, d, j, n)
    ensures n != "SUCCESS" && n != "INTERNAL_ERROR" && n != "CLI_ERROR"
    ensures h[d].attrs[j].value.Code?
    ensures h[d].attrs[j].value.exitCode.code !in {0, 1, 2}
  {
    var base := ExitCodesClass;
    assert Defines(h, base, 2, "SUCCESS") && DefinesCode(h, base, 2, "SUCCESS", 0);
    assert Defines(h, base, 3, "INTERNAL_ERROR") && DefinesCode(h, base, 3, "INTERNAL_ERROR", 1);
    assert Defines(h, base, 4, "CLI_ERROR") && DefinesCode(h, base, 4, "CLI_ERROR", 2);
    var k := h[d].attrs[j].value.exitCode.code;
    assert DefinesCode(h, d, j, n, k);
  }

  // ---------------------------------------------------------------------
  // The walk of `__init_subclass__`
  // ---------------------------------------------------------------------

  /**
   * The entry positions already examined: every entry of the classes in
   * `seen`, and the first `k` entries of the class `c` being examined.
   */
  ghost predicate Done(h: Hierarchy, seen: set<ClassId>, c: ClassId, k: int, d: ClassId, j: int) {
    d in h && 0 <= j < |h[d].attrs| && (d in seen || (d == c && j < k))
  }

  /**
   * The `definitions` and `codes` dictionaries record exactly the public
   * entries examined so far, each as an exit code: a name maps to the
   * class defining it and its exit code, a number to the class and name
   * that use it.
   */
  ghost predicate Recorded(h: Hierarchy, seen: set<ClassId>, c: ClassId, k: int,
                           defs: map<string, (ClassId, ExitCode)>, codes: map<int, (ClassId, string)>)
  {
    (forall d, j, n :: Done(h, seen, c, k, d, j) && Defines(h, d, j, n) ==>
       h[d].attrs[j].value.Code?
       && n in defs && defs[n] == (d, h[d].attrs[j].value.exitCode)
       && h[d].attrs[j].value.exitCode.code in codes && codes[h[d].attrs[j].value.exitCode.code] == (d, n))
    && (forall n :: n in defs ==> exists d, j :: Done(h, seen, c, k, d, j) && Defines(h, d, j, n) && defs[n].0 == d)
    && (forall m :: m in codes ==> exists d, j :: Done(h, seen, c, k, d, j) && DefinesCode(h, d, j, codes[m].1, m) && codes[m].0 == d)
  }

  /** Moving on past a private entry. */
  lemma RecordedSkip(h: Hierarchy, seen: set<ClassId>, c: ClassId, i: nat,
                     defs: map<string, (ClassId, ExitCode)>, codes: map<int, (ClassId, string)>)
    requires c in h && i < |h[c].attrs| && !Public(h[c].attrs[i].name)
    requires Recorded(h, seen, c, i, defs, codes)
    ensures Recorded(h, seen, c, i + 1, defs, codes)
  {
    forall d, j, n | Done(h, seen, c, i + 1, d, j) && Defines(h, d, j, n)
      ensures Done(h, seen, c, i, d, j)
    {
    }
    forall n | n in defs ensures exists d, j :: Done(h, seen, c, i + 1, d, j) && Defines(h, d, j, n) && defs[n].0 == d {
      var d, j :| Done(h, seen, c, i, d, j) && Defines(h, d, j, n) && defs[n].0 == d;
      assert Done(h, seen, c, i + 1, d, j);
    }
    forall m | m in codes ensures exists d, j :: Done(h, seen, c, i + 1, d, j) && DefinesCode(h, d, j, codes[m].1, m) && codes[m].0 == d {
      var d, j :| Done(h, seen, c, i, d, j) && DefinesCode(h, d, j, codes[m].1, m) && codes[m].0 == d;
      assert Done(h, seen, c, i + 1, d, j);
    }
  }

  /** Recording a fresh public exit code. */
  lemma RecordedAdd(h: Hierarchy, seen: set<ClassId>, c: ClassId, i: nat,
                    defs: map<string, (ClassId, ExitCode)>, codes: map<int, (ClassId, string)>)
    requires WellFormed(h) && c in h && c !in seen && i < |h[c].attrs|
    requires Public(h[c].attrs[i].name) && h[c].attrs[i].value.Code?
    requires h[c].attrs[i].name !in defs && h[c].attrs[i].value.exitCode.code !in codes
    requires Recorded(h, seen, c, i, defs, codes)
    ensures Recorded(h, seen, c, i + 1,
                     defs[h[c].attrs[i].name := (c, h[c].attrs[i].value.exitCode)],
                     codes[h[c].attrs[i].value.exitCode.code := (c, h[c].attrs[i].name)])
  {
    var a := h[c].attrs[i];
    var defs' := defs[a.name := (c, a.value.exitCode)];
    var codes' := codes[a.value.exitCode.code := (c, a.name)];
    forall d, j, n | Done(h, seen, c, i + 1, d, j) && Defines(h, d, j, n)
      ensures h[d].attrs[j].value.Code?
      ensures n in defs' && defs'[n] == (d, h[d].attrs[j].value.exitCode)
      ensures h[d].attrs[j].value.exitCode.code in codes' && codes'[h[d].attrs[j].value.exitCode.code] == (d, n)
    {
      if !(d == c && j == i) {
        assert Done(h, seen, c, i, d, j);
      }
    }
    forall n | n in defs' ensures exists d, j :: Done(h, seen, c, i + 1, d, j) && Defines(h, d, j, n) && defs'[n].0 == d {
      if n == a.name {
        assert Done(h, seen, c, i + 1, c, i) && Defines(h, c, i, n);
      } else {
        ghost var d, j :| Done(h, seen, c, i, d, j) && Defines(h, d, j, n) && defs[n].0 == d;
        assert Done(h, seen, c, i + 1, d, j);
      }
    }
    forall m | m in codes' ensures exists d, j :: Done(h, seen, c, i + 1, d, j) && DefinesCode(h, d, j, codes'[m].1, m) && codes'[m].0 == d {
      if m == a.value.exitCode.code {
        assert Done(h, seen, c, i + 1, c, i) && DefinesCode(h, c, i, a.name, m);
      } else {
        ghost var d, j :| Done(h, seen, c, i, d, j) && DefinesCode(h, d, j, codes[m].1, m) && codes[m].0 == d;
        assert Done(h, seen, c, i + 1, d, j);
      }
    }
  }

  /** Starting on a class `c`: no entry of it is examined yet. */
  lemma RecordedOpen(h: Hierarchy, seen: set<ClassId>, c: ClassId,
                     defs: map<string, (ClassId, ExitCode)>, codes: map<int, (ClassId, string)>)
    requires Recorded(h, seen, Object, 0, defs, codes)
    ensures Recorded(h, seen, c, 0, defs, codes)
  {
    forall n | n in defs ensures exists d, j :: Done(h, seen, c, 0, d, j) && Defines(h, d, j, n) && defs[n].0 == d {
      var d, j :| Done(h, seen, Object, 0, d, j) && Defines(h, d, j, n) && defs[n].0 == d;
      assert Done(h, seen, c, 0, d, j);
    }
    forall m | m in codes ensures exists d, j :: Done(h, seen, c, 0, d, j) && DefinesCode(h, d, j, codes[m].1, m) && codes[m].0 == d {
      var d, j :| Done(h, seen, Object, 0, d, j) && DefinesCode(h, d, j, codes[m].1, m) && codes[m].0 == d;
      assert Done(h, seen, c, 0, d, j);
    }
  }

  /** Finishing class `c`: all its entries are examined, and it joins `seen`. */
  lemma RecordedClose(h: Hierarchy, seen: set<ClassId>, c: ClassId,
                      defs: map<string, (ClassId, ExitCode)>, codes: map<int, (ClassId, string)>)
    requires c in h && Recorded(h, seen, c, |h[c].attrs|, defs, codes)
    ensures Recorded(h, seen + {c}, Object, 0, defs, codes)
  {
    var k := |h[c].attrs|;
    forall d, j | Done(h, seen + {c}, Object, 0, d, j) ensures Done(h, seen, c, k, d, j) {
    }
    forall n | n in defs ensures exists d, j :: Done(h, seen + {c}, Object, 0, d, j) && Defines(h, d, j, n) && defs[n].0 == d {
      var d, j :| Done(h, seen, c, k, d, j) && Defines(h, d, j, n) && defs[n].0 == d;
      assert Done(h, seen + {c}, Object, 0, d, j);
    }
    forall m | m in codes ensures exists d, j :: Done(h, seen + {c}, Object, 0, d, j) && DefinesCode(h, d, j, codes[m].1, m) && codes[m].0 == d {
      var d, j :| Done(h, seen, c, k, d, j) && DefinesCode(h, d, j, codes[m].1, m) && codes[m].0 == d;
      assert Done(h, seen + {c}, Object, 0, d, j);
    }
  }

  /** When the walk has examined exactly the ancestry, what it recorded makes the definition valid. */
  lemma RecordedValid(h: Hierarchy, cls: ClassId, seen: set<ClassId>,
                      defs: map<string, (ClassId, ExitCode)>, codes: map<int, (ClassId, string)>)
    requires WellFormed(h)
    requires forall c :: c in Ancestry(h, cls) <==> c in seen && c in h
    requires forall c :: c in seen && c in h ==> h[c].isExitCodes
    requires Recorded(h, seen, Object, 0, defs, codes)
    ensures Valid(h, cls)
  {
    var a := Ancestry(h, cls);
    forall c, i, d, j, n | c in a && d in a && Defines(h, c, i, n) && Defines(h, d, j, n) ensures c == d && i == j {
      assert Done(h, seen, Object, 0, c, i) && Done(h, seen, Object, 0, d, j);
    }
    forall c, i, n, d, j, m, k | c in a && d in a && DefinesCode(h, c, i, n, k) && DefinesCode(h, d, j, m, k) ensures c == d && i == j {
      assert Done(h, seen, Object, 0, c, i) && Done(h, seen, Object, 0, d, j);
    }
    forall c, j, n | c in a && Defines(h, c, j, n) ensures h[c].attrs[j].value.Code? {
      assert Done(h, seen, Object, 0, c, j);
    }
  }

  /**
   * The loop over one class's namespace (`vars(cls).items()`): private
   * entries are skipped; each public one must be an exit code whose name
   * and number are not yet recorded, and is then recorded.
   */
  method CheckAttributes(h: Hierarchy, ghost a: set<ClassId>, ghost seen: set<ClassId>, c: ClassId,
                         defs: map<string, (ClassId, ExitCode)>, codes: map<int, (ClassId, string)>)
    returns (out: Outcome, defs': map<string, (ClassId, ExitCode)>, codes': map<int, (ClassId, string)>)
    requires WellFormed(h) && c in h && c !in seen && c in a
    requires forall d :: d in seen && d in h ==> d in a
    requires Recorded(h, seen, c, 0, defs, codes)
    ensures out.Accepted? ==> Recorded(h, seen, c, |h[c].attrs|, defs', codes')
    ensures out.Rejected? ==> Explains(h, a, out.reason)
  {
    out, defs', codes' := Accepted, defs, codes;
    var attrs := h[c].attrs;
    for i := 0 to |attrs|
      invariant Recorded(h, seen, c, i, defs', codes')
    {
      var attr := attrs[i];
      if !Public(attr.name) {
        RecordedSkip(h, seen, c, i, defs', codes');
        continue;
      }
      assert Defines(h, c, i, attr.name);
      if attr.value.Other? {
        return Rejected(NotExitCode(c, attr.name)), defs', codes';
      }
      var code := attr.value.exitCode.code;
      if attr.name in defs' {
        ghost var d, j :| Done(h, seen, c, i, d, j) && Defines(h, d, j, attr.name) && defs'[attr.name].0 == d;
        return Rejected(DuplicateName(defs'[attr.name].0, c, attr.name)), defs', codes';
      }
      if code in codes' {
        ghost var d, j :| Done(h, seen, c, i, d, j) && DefinesCode(h, d, j, codes'[code].1, code) && codes'[code].0 == d;
        assert DefinesCode(h, c, i, attr.name, code);
        return Rejected(DuplicateCode(codes'[code].0, codes'[code].1, c, attr.name, code)), defs', codes';
      }
      RecordedAdd(h, seen, c, i, defs', codes');
      defs' := defs'[attr.name := (c, attr.value.exitCode)];
      codes' := codes'[code := (c, attr.name)];
    }
  }

  /** The state of the walk between two iterations. */
  ghost predicate Walking(h: Hierarchy, cls: ClassId, seen: set<ClassId>, todo: seq<ClassId>,
                          defs: map<string, (ClassId, ExitCode)>, codes: map<int, (ClassId, string)>,
                          examined: seq<ClassId>)
  {
    Object in seen
    && (cls in seen || cls in todo)
    && (forall c :: c in seen && c != Object ==> c in h && Reaches(h, cls, c) && h[c].isExitCodes)
    && (forall x :: x in todo ==> (x == Object || x in h) && Reaches(h, cls, x))
    && (forall c, b :: c in seen && c in h && b in h[c].bases ==> b in seen || b in todo)
    && Recorded(h, seen, Object, 0, defs, codes)
    && (forall c :: c in examined <==> c in seen && c != Object)
    && (forall i, j :: 0 <= i < j < |examined| ==> examined[i] != examined[j])
  }

  /** Popping a class already seen changes nothing else. */
  lemma WalkSkip(h: Hierarchy, cls: ClassId, seen: set<ClassId>, todo: seq<ClassId>, c: ClassId,
                 defs: map<string, (ClassId, ExitCode)>, codes: map<int, (ClassId, string)>,
                 examined: seq<ClassId>)
    requires Walking(h, cls, seen, todo + [c], defs, codes, examined) && c in seen
    ensures Walking(h, cls, seen, todo, defs, codes, examined)
  {
    assert forall x :: x in todo ==> x in todo + [c];
  }

  /** Examining a class that passed its checks: it joins `seen` and its bases join `todo`. */
  lemma WalkVisit(h: Hierarchy, cls: ClassId, seen: set<ClassId>, todo: seq<ClassId>, c: ClassId,
                  defs: map<string, (ClassId, ExitCode)>, codes: map<int, (ClassId, string)>,
                  examined: seq<ClassId>, defs': map<string, (ClassId, ExitCode)>, codes': map<int, (ClassId, string)>)
    requires WellFormed(h)
    requires Walking(h, cls, seen, todo + [c], defs, codes, examined)
    requires c !in seen && c in h && h[c].isExitCodes
    requires Recorded(h, seen + {c}, Object, 0, defs', codes')
    ensures Walking(h, cls, seen + {c}, todo + h[c].bases, defs', codes', examined + [c])
  {
    assert c in todo + [c];
    forall b | b in h[c].bases ensures Reaches(h, cls, b) {
      ReachesBase(h, cls, c, b);
    }
    assert forall x :: x in todo ==> x in todo + [c];
  }

  /** The walk has run out of classes: it examined exactly the ancestry, which is valid. */
  lemma WalkEnd(h: Hierarchy, cls: ClassId, seen: set<ClassId>,
                defs: map<string, (ClassId, ExitCode)>, codes: map<int, (ClassId, string)>,
                examined: seq<ClassId>)
    requires WellFormed(h)
    requires Walking(h, cls, seen, [], defs, codes, examined)
    ensures Valid(h, cls)
    ensures forall c :: c in examined <==> c in Ancestry(h, cls)
  {
    AncestryWithin(h, cls, seen);
    RecordedValid(h, cls, seen, defs, codes);
  }

  /**
   * `ExitCodes.__init_subclass__`: walks the ancestry of `cls` from a
   * stack of classes still to examine, skipping classes already seen and
   * stopping at `object`; each examined class must be an `ExitCodes` class
   * and its namespace must pass CheckAttributes. The definition is
   * accepted exactly when it is Valid; a refusal names classes of the
   * ancestry that justify it. `examined` lists the classes examined, in
   * order: each at most once, never `object`, and on acceptance the whole
   * ancestry.
   */
  method InitSubclass(h: Hierarchy, cls: ClassId) returns (r: Outcome, ghost examined: seq<ClassId>)
    requires WellFormed(h) && cls in h
    ensures r.Accepted? <==> Valid(h, cls)
    ensures r.Rejected? ==> Explains(h, Ancestry(h, cls), r.reason)
    ensures forall i, j :: 0 <= i < j < |examined| ==> examined[i] != examined[j]
    ensures forall c :: c in examined ==> c in Ancestry(h, cls)
    ensures r.Accepted? ==> forall c :: c in Ancestry(h, cls) ==> c in examined
  {
    ghost var a := Ancestry(h, cls);
    var seen: set<ClassId> := {Object};
    var todo: seq<ClassId> := [cls];
    var defs: map<string, (ClassId, ExitCode)> := map[];
    var codes: map<int, (ClassId, string)> := map[];
    examined := [];
    ReachesSelf(h, cls);
    while |todo| != 0
      invariant Walking(h, cls, seen, todo, defs, codes, examined)
      decreases h.Keys - seen, |todo|
    {
      var c := todo[|todo| - 1];
      var rest := todo[..|todo| - 1];
      assert todo == rest + [c];
      todo := rest;
      if c in seen {
        WalkSkip(h, cls, seen, todo, c, defs, codes, examined);
        continue;
      }
      assert c in h && c in a;
      if !h[c].isExitCodes {
        r := Rejected(NotPure(c));
        ExplainsInvalid(h, cls, r.reason);
        return;
      }
      RecordedOpen(h, seen, c, defs, codes);
      var out, defs', codes' := CheckAttributes(h, a, seen, c, defs, codes);
      if out.Rejected? {
        r := out;
        ExplainsInvalid(h, cls, r.reason);
        return;
      }
      RecordedClose(h, seen, c, defs', codes');
      WalkVisit(h, cls, seen, todo, c, defs, codes, examined, defs', codes');
      seen, defs, codes := seen + {c}, defs', codes';
      todo := todo + h[c].bases;
      examined := examined + [c];
    }
    WalkEnd(h, cls, seen, defs, codes, examined);
    r := Accepted;
  }

  /** What asking for an instance of an enumeration class yields. */
  datatype Instantiation = Instance(cls: ClassId) | Refused(cls: ClassId)   // Refused: RuntimeError

  /**
   * `ExitCodes.__new__`: no enumeration class can be instantiated. The
   * source raises unconditionally, so the refusal holds by construction.
   */
  function Instantiate(cls: ClassId): (r: Instantiation)
    ensures !r.Instance? && r.cls == cls
  {
    Refused(cls)
  }
}

/**
 * The recursion-guarded `include` and the `tpl` function of utils/helpers.go.
 *
 * Template execution (Go's text/template) is replaced by a small body
 * language: literal text, an action whose value is absent (the engine prints
 * the marker "<no value>" for it), a call of `include` on a named template,
 * and an action that fails. The counter map `includedNames`, which
 * ParseTemplate creates once and which every `include`/`tpl` closure shares,
 * is the field of a `Counter` object that an `Engine` and all its clones
 * point to.
 *
 * `IncludeSpec`/`RunSpec` are the reference semantics: a nested call simply
 * sees the count one higher, with no state threaded through. The methods
 * `Engine.Include`/`Engine.RunBody` update the shared map in place, as the Go
 * closures do, and are proved to compute the reference semantics and to put
 * every count back.
 */
module IncludeEngine {
  import opened Wrappers
  import GoStrings

  /** utils/helpers.go:20 */
  const RecursionMaxNums := 1000

  /** What text/template prints for a value that is absent. */
  const NoValue := "<no value>"

  datatype Piece =
    | Text(s: string)
    | Absent
    | Include(name: string)
    | Fail(msg: string)

  datatype ExecError =
    | RecursionLimit(name: string)
    | NoSuchTemplate(name: string)
    | ActionFailed(msg: string)

  /** Text written so far and the error that stopped execution, if any. */
  datatype Outcome = Outcome(out: string, err: Option<ExecError>)

  /** The named templates of one compiled set. */
  type Defs = map<string, seq<Piece>>

  /** The `includedNames` map: live nesting depth per template name. */
  type Counts = map<string, nat>

  function Count(counts: Counts, name: string): nat
  {
    if name in counts then counts[name] else 0
  }

  /** No count is above the ceiling plus one. */
  ghost predicate Bounded(counts: Counts)
  {
    forall n :: n in counts ==> counts[n] <= RecursionMaxNums + 1
  }

  /** Two counters that agree on every name (an absent key reads as 0). */
  ghost predicate SameCounts(a: Counts, b: Counts)
  {
    forall n :: Count(a, n) == Count(b, n)
  }

  function Prepend(s: string, o: Outcome): Outcome
  {
    Outcome(s + o.out, o.err)
  }

  /** The nesting levels still open to the defined names: the termination
      measure of the guarded recursion. */
  ghost function Avail(defs: Defs, counts: Counts): set<(string, int)>
  {
    set n, k | n in defs && Count(counts, n) < k <= RecursionMaxNums + 1 :: (n, k)
  }

  lemma AvailShrinks(defs: Defs, counts: Counts, name: string)
    requires name in defs && Count(counts, name) <= RecursionMaxNums
    ensures Avail(defs, counts[name := Count(counts, name) + 1]) < Avail(defs, counts)
  {
    var c := Count(counts, name);
    assert (name, c + 1) in Avail(defs, counts);
    assert (name, c + 1) !in Avail(defs, counts[name := c + 1]);
  }

  lemma SameCountsUpdate(a: Counts, b: Counts, name: string, v: nat)
    requires SameCounts(a, b)
    ensures SameCounts(a[name := v], b[name := v])
  {
    var a', b' := a[name := v], b[name := v];
    forall n ensures Count(a', n) == Count(b', n) {
      assert Count(a, n) == Count(b, n);
    }
  }

  lemma AvailSameCounts(defs: Defs, a: Counts, b: Counts)
    requires SameCounts(a, b)
    ensures Avail(defs, a) == Avail(defs, b)
  {
    forall p | p in Avail(defs, a) ensures p in Avail(defs, b) {
      assert Count(a, p.0) == Count(b, p.0);
    }
    forall p | p in Avail(defs, b) ensures p in Avail(defs, a) {
      assert Count(a, p.0) == Count(b, p.0);
    }
  }

  /** utils/helpers.go:114-127 as a reference semantics. A name whose count is
      above the ceiling is refused with "" and an error, without running it;
      otherwise its body runs with the count one higher (a name missing from
      the set fails there, as ExecuteTemplate does). */
  function IncludeSpec(defs: Defs, counts: Counts, name: string): Outcome
    requires Bounded(counts)
    decreases Avail(defs, counts), 0, 0
  {
    var c := Count(counts, name);
    if c > RecursionMaxNums then Outcome("", Some(RecursionLimit(name)))
    else if name !in defs then Outcome("", Some(NoSuchTemplate(name)))
    else
      AvailShrinks(defs, counts, name);
      RunSpec(defs, counts[name := c + 1], defs[name])
  }

  /** Executing a body: pieces in order, text written as it goes; a failing
      action or a failing `include` stops execution, keeping the text written
      so far and dropping the failed call's own partial text. */
  function RunSpec(defs: Defs, counts: Counts, body: seq<Piece>): Outcome
    requires Bounded(counts)
    decreases Avail(defs, counts), 1, |body|
  {
    if body == [] then Outcome("", None)
    else
      match body[0]
      case Text(s) => Prepend(s, RunSpec(defs, counts, body[1..]))
      case Absent => Prepend(NoValue, RunSpec(defs, counts, body[1..]))
      case Include(n) =>
        var inc := IncludeSpec(defs, counts, n);
        if inc.err.Some? then Outcome("", inc.err)
        else Prepend(inc.out, RunSpec(defs, counts, body[1..]))
      case Fail(msg) => Outcome("", Some(ActionFailed(msg)))
  }

  /** One step of a body, read at position `i`. */
  lemma RunSpecAt(defs: Defs, counts: Counts, body: seq<Piece>, i: nat)
    requires Bounded(counts) && i < |body|
    ensures var here := RunSpec(defs, counts, body[i..]);
            var rest := RunSpec(defs, counts, body[i + 1..]);
            && (body[i].Text? ==> here == Prepend(body[i].s, rest))
            && (body[i].Absent? ==> here == Prepend(NoValue, rest))
            && (body[i].Include? ==>
                  var inc := IncludeSpec(defs, counts, body[i].name);
                  here == if inc.err.Some? then Outcome("", inc.err) else Prepend(inc.out, rest))
            && (body[i].Fail? ==> here == Outcome("", Some(ActionFailed(body[i].msg))))
  {
    assert body[i..][0] == body[i] && body[i..][1..] == body[i + 1..];
  }

  /** The loop step of `Engine.RunBody`: with `out` written before position
      `i`, the piece at `i` either extends `out` or ends the execution. */
  lemma RunSpecAdvance(defs: Defs, counts: Counts, body: seq<Piece>, i: nat, out: string)
    requires Bounded(counts) && i < |body|
    requires RunSpec(defs, counts, body) == Prepend(out, RunSpec(defs, counts, body[i..]))
    ensures var whole := RunSpec(defs, counts, body);
            var rest := RunSpec(defs, counts, body[i + 1..]);
            && (body[i].Text? ==> whole == Prepend(out + body[i].s, rest))
            && (body[i].Absent? ==> whole == Prepend(out + NoValue, rest))
            && (body[i].Include? ==>
                  var inc := IncludeSpec(defs, counts, body[i].name);
                  whole == if inc.err.Some? then Outcome(out, inc.err) else Prepend(out + inc.out, rest))
            && (body[i].Fail? ==> whole == Outcome(out, Some(ActionFailed(body[i].msg))))
  {
    var rest := RunSpec(defs, counts, body[i + 1..]);
    RunSpecAt(defs, counts, body, i);
    match body[i]
    case Text(t) => PrependTwice(out, t, rest);
    case Absent => PrependTwice(out, NoValue, rest);
    case Include(n) =>
      var inc := IncludeSpec(defs, counts, n);
      if inc.err.None? {
        PrependTwice(out, inc.out, rest);
      } else {
        assert out + "" == out;
      }
    case Fail(msg) =>
      assert out + "" == out;
  }

  lemma PrependTwice(a: string, b: string, o: Outcome)
    ensures Prepend(a, Prepend(b, o)) == Prepend(a + b, o)
  {
    assert a + (b + o.out) == (a + b) + o.out;
  }

  /** Only the counts matter, not whether a zero count is stored: a name
      whose key was left behind at 0 behaves as a name never included. */
  lemma {:induction false} IncludeSpecCountsOnly(defs: Defs, a: Counts, b: Counts, name: string)
    requires Bounded(a) && Bounded(b) && SameCounts(a, b)
    ensures IncludeSpec(defs, a, name) == IncludeSpec(defs, b, name)
    decreases Avail(defs, a), 0, 0
  {
    var c := Count(a, name);
    assert c == Count(b, name);
    if c <= RecursionMaxNums && name in defs {
      AvailShrinks(defs, a, name);
      SameCountsUpdate(a, b, name, c + 1);
      RunSpecCountsOnly(defs, a[name := c + 1], b[name := c + 1], defs[name]);
    }
  }

  lemma {:induction false} RunSpecCountsOnly(defs: Defs, a: Counts, b: Counts, body: seq<Piece>)
    requires Bounded(a) && Bounded(b) && SameCounts(a, b)
    ensures RunSpec(defs, a, body) == RunSpec(defs, b, body)
    decreases Avail(defs, a), 1, |body|
  {
    if body != [] {
      RunSpecCountsOnly(defs, a, b, body[1..]);
      match body[0]
      case Include(n) => IncludeSpecCountsOnly(defs, a, b, n);
      case _ =>
    }
  }

  /** A piece that only prints: text, or an action on an absent value. */
  predicate Prints(p: Piece)
  {
    p.Text? || p.Absent?
  }

  predicate AllPrint(pieces: seq<Piece>)
  {
    forall k :: 0 <= k < |pieces| ==> Prints(pieces[k])
  }

  /** What a printing piece writes. */
  function Printed(p: Piece): string
    requires Prints(p)
  {
    if p.Text? then p.s else NoValue
  }

  /** What a run of printing pieces writes. */
  function PlainOut(pieces: seq<Piece>): string
    requires AllPrint(pieces)
  {
    if pieces == [] then "" else Printed(pieces[0]) + PlainOut(pieces[1..])
  }

  /** A printing piece writes its text in front of the rest of the body. */
  lemma PrintsStep(defs: Defs, counts: Counts, body: seq<Piece>)
    requires Bounded(counts) && body != [] && Prints(body[0])
    ensures RunSpec(defs, counts, body) == Prepend(Printed(body[0]), RunSpec(defs, counts, body[1..]))
  {
  }

  lemma PrependTwiceOut(a: string, b: string, o: Outcome)
    ensures Prepend(a, Prepend(b, o)) == Prepend(a + b, o)
  {
    assert a + (b + o.out) == (a + b) + o.out;
  }

  /** Pieces that only print cannot fail: what follows them runs with
      their text in front. */
  lemma {:induction false} RunPastPlain(defs: Defs, counts: Counts, plain: seq<Piece>, rest: seq<Piece>)
    requires Bounded(counts) && AllPrint(plain)
    ensures RunSpec(defs, counts, plain + rest) == Prepend(PlainOut(plain), RunSpec(defs, counts, rest))
    decreases |plain|
  {
    if plain == [] {
      assert plain + rest == rest;
    } else {
      var body := plain + rest;
      assert body[0] == plain[0] && body[1..] == plain[1..] + rest;
      assert Prints(plain[0]);
      PrintsStep(defs, counts, body);
      RunPastPlain(defs, counts, plain[1..], rest);
      PrependTwiceOut(Printed(plain[0]), PlainOut(plain[1..]), RunSpec(defs, counts, rest));
    }
  }

  /** The body of a self-including template, split at the call. */
  lemma SplitAtCall(body: seq<Piece>, k: nat)
    requires k < |body|
    ensures body == body[..k] + body[k..] && body[k..][0] == body[k] && body[k..][1..] == body[k + 1..]
  {
  }

  /** A template that includes itself, with only text and absent values
      before the call, is refused once its nesting reaches the ceiling,
      whatever the starting count. The error reaches the outermost call,
      which keeps only the text its own body printed before the call; the
      nested calls' text is dropped with their failure. */
  lemma {:induction false} SelfInclusionFails(defs: Defs, counts: Counts, name: string, k: nat)
    requires Bounded(counts)
    requires name in defs && k < |defs[name]| && defs[name][k] == Include(name)
    requires AllPrint(defs[name][..k])
    ensures IncludeSpec(defs, counts, name) ==
              Outcome(if Count(counts, name) <= RecursionMaxNums then PlainOut(defs[name][..k]) else "",
                      Some(RecursionLimit(name)))
    decreases RecursionMaxNums + 1 - Count(counts, name)
  {
    var c := Count(counts, name);
    if c <= RecursionMaxNums {
      var inner := counts[name := c + 1];
      var body := defs[name];
      SelfInclusionFails(defs, inner, name, k);
      SplitAtCall(body, k);
      assert IncludeSpec(defs, counts, name) == RunSpec(defs, inner, body);
      assert RunSpec(defs, inner, body[k..]) == Outcome("", Some(RecursionLimit(name)));
      RunPastPlain(defs, inner, body[..k], body[k..]);
    }
  }

  /** Execution without the guard, nesting at most `fuel` levels of
      `include`; `None` when that is not enough. */
  function Expand(defs: Defs, name: string, fuel: nat): Option<Outcome>
    decreases fuel, 0, 0
  {
    if fuel == 0 then None
    else if name !in defs then Some(Outcome("", Some(NoSuchTemplate(name))))
    else ExpandBody(defs, defs[name], fuel - 1)
  }

  function ExpandBody(defs: Defs, body: seq<Piece>, fuel: nat): Option<Outcome>
    decreases fuel, 1, |body|
  {
    if body == [] then Some(Outcome("", None))
    else
      match body[0]
      case Text(s) => PrependSome(s, ExpandBody(defs, body[1..], fuel))
      case Absent => PrependSome(NoValue, ExpandBody(defs, body[1..], fuel))
      case Include(n) =>
        (match Expand(defs, n, fuel)
         case None => None
         case Some(inc) =>
           if inc.err.Some? then Some(Outcome("", inc.err))
           else PrependSome(inc.out, ExpandBody(defs, body[1..], fuel)))
      case Fail(msg) => Some(Outcome("", Some(ActionFailed(msg))))
  }

  function PrependSome(s: string, o: Option<Outcome>): Option<Outcome>
  {
    match o
    case None => None
    case Some(x) => Some(Prepend(s, x))
  }

  /** The guard is invisible to legitimate recursion: a rendering whose
      includes nest at most `fuel` deep gives the unguarded result as long as
      no count plus `fuel` exceeds 1001; from a fresh counter that is any
      nesting of at most 1001 levels. */
  lemma {:induction false} GuardAdmitsBoundedNesting(defs: Defs, counts: Counts, name: string, fuel: nat)
    requires Bounded(counts) && Expand(defs, name, fuel).Some?
    requires forall n :: Count(counts, n) + fuel <= RecursionMaxNums + 1
    ensures IncludeSpec(defs, counts, name) == Expand(defs, name, fuel).value
    decreases fuel, 0, 0
  {
    var c := Count(counts, name);
    assert c + fuel <= RecursionMaxNums + 1;
    if name in defs {
      var inner := counts[name := c + 1];
      forall n ensures Count(inner, n) + (fuel - 1) <= RecursionMaxNums + 1 {
        assert Count(counts, n) + fuel <= RecursionMaxNums + 1;
      }
      GuardAdmitsBoundedBody(defs, inner, defs[name], fuel - 1);
    }
  }

  lemma {:induction false} GuardAdmitsBoundedBody(defs: Defs, counts: Counts, body: seq<Piece>, fuel: nat)
    requires Bounded(counts) && ExpandBody(defs, body, fuel).Some?
    requires forall n :: Count(counts, n) + fuel <= RecursionMaxNums + 1
    ensures RunSpec(defs, counts, body) == ExpandBody(defs, body, fuel).value
    decreases fuel, 1, |body|
  {
    if body != [] {
      match body[0]
      case Text(s) => GuardAdmitsBoundedBody(defs, counts, body[1..], fuel);
      case Absent => GuardAdmitsBoundedBody(defs, counts, body[1..], fuel);
      case Include(n) =>
        GuardAdmitsBoundedNesting(defs, counts, n, fuel);
        if Expand(defs, n, fuel).value.err.None? {
          GuardAdmitsBoundedBody(defs, counts, body[1..], fuel);
        }
      case Fail(msg) =>
    }
  }

  /** utils/helpers.go:162: the captured `tpl` text with every "<no value>"
      removed in one left-to-right pass. */
  function StripNoValue(s: string): string
  {
    GoStrings.ReplaceAll(s, NoValue, "")
  }

  /** Text without the marker is returned unchanged. */
  lemma StripLeavesPlainText(s: string)
    requires !GoStrings.Contains(s, NoValue)
    ensures StripNoValue(s) == s
  {
    GoStrings.ReplaceAllWithoutOccurrence(s, NoValue, "");
  }

  /** A `tpl` text that is one action on an absent value renders as empty
      text. */
  lemma AbsentValueRendersEmpty(defs: Defs, counts: Counts)
    requires Bounded(counts)
    ensures RunSpec(defs, counts, [Absent]).err.None?
    ensures StripNoValue(RunSpec(defs, counts, [Absent]).out) == ""
  {
    assert RunSpec(defs, counts, [Absent]).out == NoValue;
    assert NoValue[..|NoValue|] == NoValue;
  }

  /** A pattern whose first character does not recur among its next three:
      a copy of it cut after any of its first three characters cannot match
      at the cut. */
  predicate HeadUnique(pat: string)
  {
    |pat| > 3 && pat[1] != pat[0] && pat[2] != pat[0] && pat[3] != pat[0]
  }

  /** A copy of such a pattern, cut after its third character and wrapped
      around another copy, does not match at any of the three positions
      before the inner copy. */
  lemma CutCopyMisses(pat: string, i: nat)
    requires HeadUnique(pat) && i < 3
    ensures GoStrings.MissesAt(pat[..3], pat + pat[3..], pat, i)
  {
    var s := pat[..3][i..] + (pat + pat[3..]);
    if i == 0 {
      assert s[3] == pat[0];
      assert s[..|pat|][3] != pat[3];
    } else {
      assert s[0] == pat[i];
      assert s[..|pat|][0] != pat[0];
    }
  }

  /** Removing the pattern from such a wrapped copy gives the outer copy
      back: the one pass does not look again at the text it has passed. */
  lemma ReplaceInsidePattern(pat: string)
    requires HeadUnique(pat)
    ensures GoStrings.ReplaceAll(pat[..3] + (pat + pat[3..]), pat, "") == pat
  {
    forall i | 0 <= i < 3
      ensures GoStrings.MissesAt(pat[..3], pat + pat[3..], pat, i)
    {
      CutCopyMisses(pat, i);
    }
    GoStrings.ReplaceAllKeepsPrefix(pat[..3], pat + pat[3..], pat, "");
    ReplaceInnerCopy(pat);
    assert pat[..3] + pat[3..] == pat;
  }

  /** The inner copy is removed and the short rest is kept. */
  lemma ReplaceInnerCopy(pat: string)
    requires HeadUnique(pat)
    ensures GoStrings.ReplaceAll(pat + pat[3..], pat, "") == pat[3..]
  {
    var tail := pat[3..];
    var s := pat + tail;
    assert s[..|pat|] == pat && s[|pat|..] == tail;
    GoStrings.ReplaceAllAtPattern(s, pat, "");
    assert |tail| < |pat|;
    GoStrings.ReplaceAllWithoutOccurrence(tail, pat, "");
  }

  /** One pass can create a new marker out of the text around a removed one,
      so the result is not always marker-free: a marker split around a second
      marker comes back whole. */
  lemma StripIsSinglePass()
    ensures StripNoValue(NoValue[..3] + NoValue + NoValue[3..]) == NoValue
  {
    assert NoValue[0] == '<' && NoValue[1] == 'n' && NoValue[2] == 'o' && NoValue[3] == ' ';
    ReplaceInsidePattern(NoValue);
    assert NoValue[..3] + NoValue + NoValue[3..] == NoValue[..3] + (NoValue + NoValue[3..]);
  }

  /** The shared `includedNames` map (utils/helpers.go:172). */
  class Counter {
    var includedNames: Counts

    constructor ()
      ensures includedNames == map[]
    {
      includedNames := map[];
    }
  }

  /** The result of parsing `tpl` text: the templates it defines and its own
      body. */
  datatype Parsed = Parsed(defines: Defs, body: seq<Piece>)

  datatype TplError =
    | CloneFailed(msg: string)
    | ParseFailed(msg: string)
    | ExecFailed(cause: ExecError)

  /** A compiled template set with `include` and `tpl` wired to a counter. */
  class Engine {
    const rootName: string
    var defs: Defs
    const counter: Counter

    ghost predicate Valid()
      reads this, counter
    {
      Bounded(counter.includedNames)
    }

    /** utils/helpers.go:171-184: a root template with a fresh, empty
        counter shared by its `include` and `tpl`. */
    constructor (rootName: string, defs: Defs)
      ensures Valid() && fresh(counter)
      ensures this.rootName == rootName && this.defs == defs
      ensures counter.includedNames == map[]
    {
      this.rootName := rootName;
      this.defs := defs;
      counter := new Counter();
    }

    /** utils/helpers.go:133-143: a copy of the template set whose `include`
        and `tpl` close over the SAME counter. */
    constructor Clone(parent: Engine)
      requires parent.Valid()
      ensures Valid()
      ensures rootName == parent.rootName && defs == parent.defs && counter == parent.counter
    {
      rootName := parent.rootName;
      defs := parent.defs;
      counter := parent.counter;
    }

    /** utils/helpers.go:151: the parsed text's definitions join the set,
        and its body becomes the template named after the root. */
    method ParseInto(p: Parsed)
      modifies this
      ensures defs == (old(defs) + p.defines)[rootName := p.body]
      ensures unchanged(counter)
    {
      defs := (defs + p.defines)[rootName := p.body];
    }

    /** utils/helpers.go:114-127. */
    method Include(name: string) returns (out: string, err: Option<ExecError>)
      requires Valid()
      modifies counter
      decreases Avail(defs, counter.includedNames), 0, 0
      ensures Valid()
      ensures Outcome(out, err) == IncludeSpec(defs, old(counter.includedNames), name)
      ensures Count(old(counter.includedNames), name) > RecursionMaxNums ==>
                counter.includedNames == old(counter.includedNames)
      ensures SameCounts(counter.includedNames, old(counter.includedNames))
      ensures old(counter.includedNames).Keys + {name} <= counter.includedNames.Keys
    {
      ghost var entry := counter.includedNames;
      if name in counter.includedNames {
        var v := counter.includedNames[name];
        if v > RecursionMaxNums {
          return "", Some(RecursionLimit(name));
        }
        counter.includedNames := counter.includedNames[name := v + 1];
      } else {
        counter.includedNames := counter.includedNames[name := 1];
      }
      ghost var during := counter.includedNames;
      assert during == entry[name := Count(entry, name) + 1];
      if name in defs {
        AvailShrinks(defs, entry, name);
        out, err := RunBody(defs[name]);
      } else {
        out, err := "", Some(NoSuchTemplate(name));
      }
      ghost var after := counter.includedNames;
      assert Count(after, name) == Count(during, name);
      counter.includedNames := counter.includedNames[name := counter.includedNames[name] - 1];
      forall n ensures Count(counter.includedNames, n) == Count(entry, n) {
        assert Count(after, n) == Count(during, n);
      }
    }

    /** Executing a body against the shared counter: the text/template
        execution that `include` and `tpl` call into. */
    method RunBody(body: seq<Piece>) returns (out: string, err: Option<ExecError>)
      requires Valid()
      modifies counter
      decreases Avail(defs, counter.includedNames), 1, |body|
      ensures Valid()
      ensures Outcome(out, err) == RunSpec(defs, old(counter.includedNames), body)
      ensures SameCounts(counter.includedNames, old(counter.includedNames))
      ensures old(counter.includedNames).Keys <= counter.includedNames.Keys
    {
      ghost var entry := counter.includedNames;
      out, err := "", None;
      var i := 0;
      while i < |body|
        invariant 0 <= i <= |body|
        invariant Valid()
        invariant SameCounts(counter.includedNames, entry)
        invariant entry.Keys <= counter.includedNames.Keys
        invariant RunSpec(defs, entry, body) == Prepend(out, RunSpec(defs, entry, body[i..]))
        invariant err.None?
      {
        var piece := body[i];
        RunSpecAdvance(defs, entry, body, i, out);
        if piece.Text? {
          out := out + piece.s;
        } else if piece.Absent? {
          out := out + NoValue;
        } else if piece.Include? {
          AvailSameCounts(defs, counter.includedNames, entry);
          IncludeSpecCountsOnly(defs, counter.includedNames, entry, piece.name);
          var s, e := Include(piece.name);
          if e.Some? {
            return out, e;
          }
          out := out + s;
        } else {
          return out, Some(ActionFailed(piece.msg));
        }
        i := i + 1;
      }
      assert out + "" == out;
    }

    /** utils/helpers.go:235-258: render the root template. */
    method Execute() returns (out: string, err: Option<ExecError>)
      requires Valid()
      modifies counter
      ensures Valid()
      ensures rootName !in defs ==> out == "" && err == Some(NoSuchTemplate(rootName))
      ensures rootName in defs ==> Outcome(out, err) == RunSpec(defs, old(counter.includedNames), defs[rootName])
      ensures SameCounts(counter.includedNames, old(counter.includedNames))
    {
      if rootName !in defs {
        return "", Some(NoSuchTemplate(rootName));
      }
      out, err := RunBody(defs[rootName]);
    }

    /** utils/helpers.go:131-164. The first failure among clone, parse and
        execution is returned with ""; otherwise the captured text, stripped
        of the "<no value>" marker. The definitions `tpl` parses go into the
        clone only. */
    method Tpl(cloneError: Option<string>, parsed: Result<Parsed, string>) returns (text: string, err: Option<TplError>)
      requires Valid()
      modifies counter
      ensures Valid() && defs == old(defs)
      ensures SameCounts(counter.includedNames, old(counter.includedNames))
      ensures cloneError.Some? ==> text == "" && err == Some(CloneFailed(cloneError.value))
      ensures cloneError.None? && parsed.Failure? ==> text == "" && err == Some(ParseFailed(parsed.error))
      ensures cloneError.None? && parsed.Success? ==>
                var o := RunSpec((old(defs) + parsed.value.defines)[rootName := parsed.value.body],
                                 old(counter.includedNames), parsed.value.body);
                && (o.err.Some? ==> text == "" && err == Some(ExecFailed(o.err.value)))
                && (o.err.None? ==> text == StripNoValue(o.out) && err.None?)
    {
      if cloneError.Some? {
        return "", Some(CloneFailed(cloneError.value));
      }
      var t := new Engine.Clone(this);
      if parsed.Failure? {
        return "", Some(ParseFailed(parsed.error));
      }
      t.ParseInto(parsed.value);
      var out, e := t.RunBody(parsed.value.body);
      if e.Some? {
        return "", Some(ExecFailed(e.value));
      }
      text, err := StripNoValue(out), None;
    }
  }
}

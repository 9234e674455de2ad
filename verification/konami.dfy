/**
 The Konami-code easter egg (script.js:1110-1128): a keydown handler keeps the
 most recent key codes, as many as the target sequence is long, and fires when
 they spell the target, then empties its buffer.

 The handler is written for any target; `Sequence` is the one the page uses.
 The script compares the buffer with the target by joining both with ',' and
 comparing the strings. The model does the same, and proves that this is
 plain sequence equality as long as no key code contains a comma (browser key
 codes are names such as "KeyA" or "Comma").
 */
module Konami {

  /** The sequence that fires the easter egg on the page. */
  const Sequence: seq<string> := [
    "ArrowUp", "ArrowUp", "ArrowDown", "ArrowDown",
    "ArrowLeft", "ArrowRight", "ArrowLeft", "ArrowRight",
    "KeyB", "KeyA"
  ]

  /** JavaScript's `Array.prototype.join(',')` on an array of strings. */
  function Join(xs: seq<string>): string
    decreases |xs|
  {
    if |xs| == 0 then ""
    else if |xs| == 1 then xs[0]
    else xs[0] + "," + Join(xs[1..])
  }

  predicate CommaFree(x: string) { ',' !in x }

  predicate AllCommaFree(xs: seq<string>) {
    forall k :: 0 <= k < |xs| ==> CommaFree(xs[k])
  }

  /** Number of commas in a string. */
  function Commas(s: string): nat { multiset(s)[','] }

  /** Joining n comma-free codes puts exactly n - 1 commas in the result. */
  lemma {:induction false} JoinCommas(xs: seq<string>)
    requires |xs| >= 1 && AllCommaFree(xs)
    ensures Commas(Join(xs)) == |xs| - 1
    decreases |xs|
  {
    if |xs| > 1 {
      JoinCommas(xs[1..]);
      assert multiset(xs[0] + "," + Join(xs[1..])) == multiset(xs[0]) + multiset(",") + multiset(Join(xs[1..]));
    }
  }

  /** Position of the first comma in a string that has one. */
  function FirstComma(s: string): (i: nat)
    requires ',' in s
    ensures i < |s| && s[i] == ','
    ensures forall k :: 0 <= k < i ==> s[k] != ','
    decreases |s|
  {
    if s[0] == ',' then 0 else 1 + FirstComma(s[1..])
  }

  lemma {:induction false} FirstCommaAfter(x: string, rest: string)
    requires CommaFree(x)
    ensures ',' in x + "," + rest
    ensures FirstComma(x + "," + rest) == |x|
    decreases |x|
  {
    var s := x + "," + rest;
    assert s[|x|] == ',';
    if x != [] {
      assert s[1..] == x[1..] + "," + rest;
      FirstCommaAfter(x[1..], rest);
    }
  }

  /** Two joins of comma-free codes are equal only when the code lists are. */
  lemma {:induction false} JoinInjective(a: seq<string>, b: seq<string>)
    requires |a| >= 1 && |b| >= 1
    requires AllCommaFree(a) && AllCommaFree(b)
    requires Join(a) == Join(b)
    ensures a == b
    decreases |a|
  {
    JoinCommas(a);
    JoinCommas(b);
    if |a| > 1 {
      JoinHeadTail(a);
      JoinHeadTail(b);
      JoinInjective(a[1..], b[1..]);
      ConsHeadTail(a);
      ConsHeadTail(b);
    }
  }

  /** A non-empty sequence is its first element followed by the rest. */
  lemma ConsHeadTail(s: seq<string>)
    requires |s| >= 1
    ensures s == [s[0]] + s[1..]
  {
  }

  /** A join of two or more comma-free codes splits at its first comma into the first code and the join of the rest. */
  lemma JoinHeadTail(a: seq<string>)
    requires |a| > 1 && AllCommaFree(a)
    ensures ',' in Join(a) && FirstComma(Join(a)) == |a[0]|
    ensures a[0] == Join(a)[..|a[0]|]
    ensures Join(a[1..]) == Join(a)[|a[0]| + 1..]
  {
    FirstCommaAfter(a[0], Join(a[1..]));
  }

  /** The script's string comparison agrees with sequence equality on comma-free codes. */
  lemma JoinMatchesIffEqual(xs: seq<string>, target: seq<string>)
    requires |target| >= 2
    requires AllCommaFree(xs) && AllCommaFree(target)
    ensures Join(xs) == Join(target) <==> xs == target
  {
    JoinCommas(target);
    if xs != [] && Join(xs) == Join(target) {
      JoinInjective(xs, target);
    }
  }

  /** The buffer after pushing `code` and, on overflow, dropping the oldest entry. */
  function Window(capacity: nat, buffer: seq<string>, code: string): (w: seq<string>)
    ensures |buffer| <= capacity ==> |w| <= capacity
    ensures |buffer| < capacity ==> w == buffer + [code]
    ensures capacity >= 1 ==> |w| >= 1 && w[|w| - 1] == code
    ensures 1 <= |buffer| && capacity <= |buffer| ==> w == buffer[1..] + [code]
  {
    var pushed := buffer + [code];
    if |pushed| > capacity then
      assert |buffer| >= 1 ==> pushed[1..] == buffer[1..] + [code];
      pushed[1..]
    else pushed
  }

  datatype Outcome = Outcome(buffer: seq<string>, fired: bool)

  /** One keydown: slide the window, fire and clear if it spells the target. */
  function Step(target: seq<string>, buffer: seq<string>, code: string): (o: Outcome)
    ensures |buffer| <= |target| ==> |o.buffer| <= |target|
    ensures o.fired ==> o.buffer == []
    ensures !o.fired ==> o.buffer == Window(|target|, buffer, code)
  {
    var w := Window(|target|, buffer, code);
    if Join(w) == Join(target) then Outcome([], true) else Outcome(w, false)
  }

  /** The handler the page installs: the generic handler on the page's sequence. */
  function KeyDown(buffer: seq<string>, code: string): (o: Outcome)
    ensures |buffer| <= 10 ==> |o.buffer| <= 10
    ensures o.fired ==> o.buffer == []
    ensures !o.fired ==> o.buffer == Window(10, buffer, code)
    ensures AllCommaFree(buffer) && CommaFree(code) ==>
              (o.fired <==> Window(10, buffer, code) == Sequence)
  {
    SequenceFiresIffWindowIsSequence(buffer, code);
    Step(Sequence, buffer, code)
  }

  /** On the page's sequence, a key with comma-free codes fires exactly when the slid window is the sequence. */
  lemma SequenceFiresIffWindowIsSequence(buffer: seq<string>, code: string)
    ensures AllCommaFree(buffer) && CommaFree(code) ==>
              (Step(Sequence, buffer, code).fired <==> Window(10, buffer, code) == Sequence)
  {
    SequenceWellFormed();
    if AllCommaFree(buffer) && CommaFree(code) {
      StepFiresIffWindowIsTarget(Sequence, buffer, code);
    }
  }

  /** With comma-free codes, a key fires exactly when the slid window is the target. */
  lemma StepFiresIffWindowIsTarget(target: seq<string>, buffer: seq<string>, code: string)
    requires |target| >= 2 && AllCommaFree(target)
    requires AllCommaFree(buffer) && CommaFree(code)
    ensures Step(target, buffer, code).fired <==> Window(|target|, buffer, code) == target
  {
    var w := Window(|target|, buffer, code);
    assert AllCommaFree(w);
    JoinMatchesIffEqual(w, target);
  }

  /** The handler's state after the keys in `keys`; `fired` is about the last key. */
  function Press(target: seq<string>, buffer: seq<string>, keys: seq<string>): Outcome
    decreases |keys|
  {
    if keys == [] then Outcome(buffer, false)
    else Step(target, Press(target, buffer, keys[..|keys| - 1]).buffer, keys[|keys| - 1])
  }

  /** The keys pressed, starting from an empty buffer, since the last firing. */
  function Since(target: seq<string>, keys: seq<string>): seq<string>
    decreases |keys|
  {
    if keys == [] then []
    else if Press(target, [], keys).fired then []
    else Since(target, keys[..|keys| - 1]) + [keys[|keys| - 1]]
  }

  /** The last `n` elements of `s` (all of them when there are fewer). */
  function Last(s: seq<string>, n: nat): (r: seq<string>)
    ensures |r| <= n && |r| <= |s|
  {
    if |s| <= n then s else s[|s| - n..]
  }

  predicate IsSuffix(t: seq<string>, s: seq<string>) {
    |t| <= |s| && s[|s| - |t|..] == t
  }

  lemma LastIsSuffix(s: seq<string>, n: nat)
    ensures IsSuffix(Last(s, n), s)
  {
  }

  lemma WindowOfLast(capacity: nat, h: seq<string>, code: string)
    ensures Window(capacity, Last(h, capacity), code) == Last(h + [code], capacity)
  {
    var hc := h + [code];
    if |h| > capacity {
      assert (Last(h, capacity) + [code])[1..] == hc[|hc| - capacity..];
    }
  }

  lemma PressSnoc(target: seq<string>, buffer: seq<string>, init: seq<string>, code: string)
    ensures Press(target, buffer, init + [code]) == Step(target, Press(target, buffer, init).buffer, code)
  {
    var keys := init + [code];
    assert keys[..|keys| - 1] == init;
  }

  lemma SinceSnoc(target: seq<string>, init: seq<string>, code: string)
    ensures Since(target, init + [code])
         == if Press(target, [], init + [code]).fired then [] else Since(target, init) + [code]
  {
    var keys := init + [code];
    assert keys[..|keys| - 1] == init;
  }

  lemma SnocSuffix(t: seq<string>, s: seq<string>, code: string)
    requires IsSuffix(t, s)
    ensures IsSuffix(t + [code], s + [code])
  {
    var s' := s + [code];
    assert s'[|s'| - |t| - 1..] == s[|s| - |t|..] + [code];
  }

  /** A key that does not fire extends the remembered window of recent keys. */
  lemma KeptWindow(target: seq<string>, t: seq<string>, code: string)
    requires !Step(target, Last(t, |target|), code).fired
    ensures Step(target, Last(t, |target|), code).buffer == Last(t + [code], |target|)
  {
    WindowOfLast(|target|, t, code);
  }

  lemma HistoryStep(target: seq<string>, init: seq<string>, code: string)
    requires Press(target, [], init).buffer == Last(Since(target, init), |target|)
    requires IsSuffix(Since(target, init), init)
    ensures var keys := init + [code];
            && Press(target, [], keys).buffer == Last(Since(target, keys), |target|)
            && IsSuffix(Since(target, keys), keys)
  {
    PressSnoc(target, [], init, code);
    SinceSnoc(target, init, code);
    var keys := init + [code];
    var t := Since(target, init);
    var o := Step(target, Last(t, |target|), code);
    assert Press(target, [], keys) == o;
    if o.fired {
      assert Since(target, keys) == [];
      EmptyIsSuffix(keys);
    } else {
      assert Since(target, keys) == t + [code];
      KeptWindow(target, t, code);
      SnocSuffix(t, init, code);
    }
  }

  lemma EmptyIsSuffix(s: seq<string>)
    ensures IsSuffix([], s)
  {
    assert s[|s|..] == [];
  }

  /**
   From an empty buffer, after any keys, the buffer holds the last keys
   pressed since the last firing, at most as many as the target is long, and
   those keys are the tail of all the keys pressed.
   */
  lemma {:induction false} BufferIsRecentHistory(target: seq<string>, keys: seq<string>)
    ensures Press(target, [], keys).buffer == Last(Since(target, keys), |target|)
    ensures IsSuffix(Since(target, keys), keys)
    ensures |Press(target, [], keys).buffer| <= |target|
    decreases |keys|
  {
    if keys != [] {
      var init := keys[..|keys| - 1];
      var code := keys[|keys| - 1];
      assert keys == init + [code];
      BufferIsRecentHistory(target, init);
      HistoryStep(target, init, code);
    }
  }

  lemma SuffixCommaFree(t: seq<string>, s: seq<string>)
    requires IsSuffix(t, s) && AllCommaFree(s)
    ensures AllCommaFree(t)
  {
    forall k | 0 <= k < |t| ensures CommaFree(t[k]) {
      assert t[k] == s[|s| - |t| + k];
    }
  }

  /**
   With comma-free key codes, a key fires exactly when the most recent keys
   since the previous firing, this one included and as many as the target is
   long, are the target.
   */
  lemma FiresIffRecentKeysMatch(target: seq<string>, init: seq<string>, code: string)
    requires |target| >= 2 && AllCommaFree(target)
    requires AllCommaFree(init) && CommaFree(code)
    ensures Press(target, [], init + [code]).fired
        <==> Last(Since(target, init) + [code], |target|) == target
  {
    PressSnoc(target, [], init, code);
    BufferIsRecentHistory(target, init);
    WindowOfLast(|target|, Since(target, init), code);
    var buffer := Press(target, [], init).buffer;
    SuffixCommaFree(Since(target, init), init);
    LastIsSuffix(Since(target, init), |target|);
    SuffixCommaFree(buffer, Since(target, init));
    StepFiresIffWindowIsTarget(target, buffer, code);
  }

  lemma WindowKeepsSuffix(capacity: nat, b: seq<string>, code: string, t: seq<string>)
    requires |t| <= capacity
    requires IsSuffix(t, b + [code])
    ensures IsSuffix(t, Window(capacity, b, code))
  {
    var pushed := b + [code];
    if |pushed| > capacity {
      var w := pushed[1..];
      assert w[|w| - |t|..] == pushed[|pushed| - |t|..];
    }
  }

  lemma WindowIsSuffix(capacity: nat, b: seq<string>, code: string)
    ensures IsSuffix(Window(capacity, b, code), b + [code])
  {
  }

  /** The first `i + 1` elements are the first `i` followed by element `i`. */
  lemma PrefixSnoc(s: seq<string>, i: nat)
    requires i < |s|
    ensures s[..i + 1] == s[..i] + [s[i]]
  {
  }

  /** A target of at least two comma-free keys whose last key occurs nowhere else in it. */
  predicate WellFormedTarget(target: seq<string>) {
    && |target| >= 2
    && AllCommaFree(target)
    && forall i :: 0 <= i < |target| - 1 ==> target[i] != target[|target| - 1]
  }

  /** Typing key `j` of the target after its first `j` keys: no firing, and the buffer extends. */
  lemma TypingStep(target: seq<string>, b: seq<string>, j: nat)
    requires WellFormedTarget(target) && j < |target| - 1
    requires |b| <= |target| && AllCommaFree(b) && IsSuffix(target[..j], b)
    ensures var o := Step(target, b, target[j]);
            && !o.fired && |o.buffer| <= |target| && AllCommaFree(o.buffer)
            && IsSuffix(target[..j + 1], o.buffer)
  {
    TypingWindow(target, b, j);
    StepFiresIffWindowIsTarget(target, b, target[j]);
  }

  /** The window after key `j` of the target: not yet the target, and it ends with the first `j + 1` keys. */
  lemma TypingWindow(target: seq<string>, b: seq<string>, j: nat)
    requires WellFormedTarget(target) && j < |target| - 1
    requires |b| <= |target| && AllCommaFree(b) && IsSuffix(target[..j], b)
    ensures var w := Window(|target|, b, target[j]);
            && w != target && |w| <= |target| && AllCommaFree(w)
            && IsSuffix(target[..j + 1], w)
  {
    var code := target[j];
    var w := Window(|target|, b, code);
    assert w != target by {
      assert w[|w| - 1] == code;
    }
    PrefixSnoc(target, j);
    SnocSuffix(target[..j], b, code);
    WindowKeepsSuffix(|target|, b, code, target[..j + 1]);
    assert AllCommaFree(b + [code]);
    WindowIsSuffix(|target|, b, code);
    SuffixCommaFree(w, b + [code]);
  }

  /** Typing the last key of the target after the others fires. */
  lemma FinalStep(target: seq<string>, b: seq<string>)
    requires WellFormedTarget(target)
    requires |b| <= |target| && AllCommaFree(b)
    requires IsSuffix(target[..|target| - 1], b)
    ensures Step(target, b, target[|target| - 1]).fired
  {
    FinalWindow(target, b);
    StepFiresIffWindowIsTarget(target, b, target[|target| - 1]);
  }

  /** The window after the last key of the target, typed after the others, is the target. */
  lemma FinalWindow(target: seq<string>, b: seq<string>)
    requires |target| >= 1
    requires |b| <= |target|
    requires IsSuffix(target[..|target| - 1], b)
    ensures Window(|target|, b, target[|target| - 1]) == target
  {
    var n := |target| - 1;
    var code := target[n];
    PrefixSnoc(target, n);
    assert target[..n + 1] == target;
    SnocSuffix(target[..n], b, code);
    WindowKeepsSuffix(|target|, b, code, target);
    var w := Window(|target|, b, code);
    assert w == w[|w| - |target|..] == target;
  }

  /** While the first `j` keys of the target are typed, nothing fires and the buffer ends with them. */
  lemma {:induction false} TypingPrefix(target: seq<string>, buffer: seq<string>, j: nat)
    requires WellFormedTarget(target) && j < |target|
    requires |buffer| <= |target| && AllCommaFree(buffer)
    ensures !Press(target, buffer, target[..j]).fired
    ensures var b := Press(target, buffer, target[..j]).buffer;
            |b| <= |target| && AllCommaFree(b) && IsSuffix(target[..j], b)
    decreases j
  {
    if j == 0 {
      assert target[..0] == [];
    } else {
      TypingPrefix(target, buffer, j - 1);
      TypingPrefixStep(target, buffer, j - 1);
    }
  }

  /** The inductive step of `TypingPrefix`: one more key of the target keeps the prefix in the buffer. */
  lemma TypingPrefixStep(target: seq<string>, buffer: seq<string>, i: nat)
    requires WellFormedTarget(target) && i < |target| - 1
    requires var b := Press(target, buffer, target[..i]).buffer;
             |b| <= |target| && AllCommaFree(b) && IsSuffix(target[..i], b)
    ensures !Press(target, buffer, target[..i + 1]).fired
    ensures var b := Press(target, buffer, target[..i + 1]).buffer;
            |b| <= |target| && AllCommaFree(b) && IsSuffix(target[..i + 1], b)
  {
    var prefix := target[..i];
    var b := Press(target, buffer, prefix).buffer;
    assert Press(target, buffer, target[..i + 1]) == Step(target, b, target[i]) by {
      PrefixSnoc(target, i);
      PressSnoc(target, buffer, prefix, target[i]);
    }
    TypingStep(target, b, i);
  }

  /** Typing the whole target fires on its last key and not before, whatever was typed earlier. */
  lemma TargetAlwaysFires(target: seq<string>, buffer: seq<string>)
    requires WellFormedTarget(target)
    requires |buffer| <= |target| && AllCommaFree(buffer)
    ensures Press(target, buffer, target).fired
    ensures forall j :: 0 <= j < |target| ==> !Press(target, buffer, target[..j]).fired
  {
    forall j | 0 <= j < |target| ensures !Press(target, buffer, target[..j]).fired {
      TypingPrefix(target, buffer, j);
    }
    var n := |target| - 1;
    TypingPrefix(target, buffer, n);
    PrefixSnoc(target, n);
    assert target[..n + 1] == target;
    PressSnoc(target, buffer, target[..n], target[n]);
    FinalStep(target, Press(target, buffer, target[..n]).buffer);
  }

  /** The page's sequence satisfies what the handler's lemmas need. */
  lemma SequenceWellFormed()
    ensures WellFormedTarget(Sequence)
    ensures |Sequence| == 10
  {
    assert CommaFree("ArrowUp") && CommaFree("ArrowDown") && CommaFree("ArrowLeft");
    assert CommaFree("ArrowRight") && CommaFree("KeyB") && CommaFree("KeyA");
  }

  /** On the page: typing the ten keys always fires the easter egg on the tenth, never earlier. */
  lemma KonamiAlwaysFires(buffer: seq<string>)
    requires |buffer| <= |Sequence| && AllCommaFree(buffer)
    ensures Press(Sequence, buffer, Sequence).fired
    ensures forall j :: 0 <= j < 10 ==> !Press(Sequence, buffer, Sequence[..j]).fired
  {
    SequenceWellFormed();
    TargetAlwaysFires(Sequence, buffer);
  }

}

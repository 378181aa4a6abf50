/** correctId (Skyrim.js): `string_id.split(/[' ]+/).join('')`, which turns
    a name such as "Shor's Stone" into a usable element id. */
module CorrectId {
  import opened JsBuiltins

  /** The characters of the class `[' ]`. */
  predicate IsIdSeparator(c: char)
  {
    c == '\'' || c == ' '
  }

  predicate NoSeparators(s: string)
  {
    forall k :: 0 <= k < |s| ==> !IsIdSeparator(s[k])
  }

  /** The index of the first separator of `s`, or `|s|` when there is none. */
  function FirstSeparator(s: string): (i: nat)
    ensures i <= |s|
    ensures NoSeparators(s[..i])
    ensures i < |s| ==> IsIdSeparator(s[i])
  {
    if s == [] then 0
    else if IsIdSeparator(s[0]) then 0
    else
      var i := 1 + FirstSeparator(s[1..]);
      assert s[..i] == [s[0]] + s[1..][..i - 1];
      i
  }

  /** The end of the longest run of separators that starts at `i`. */
  function RunEnd(s: string, i: nat): (j: nat)
    requires i <= |s|
    ensures i <= j <= |s|
    ensures forall k :: i <= k < j ==> IsIdSeparator(s[k])
    ensures j < |s| ==> !IsIdSeparator(s[j])
    decreases |s| - i
  {
    if i < |s| && IsIdSeparator(s[i]) then RunEnd(s, i + 1) else i
  }

  /** `s.split(/[' ]+/)`: the pieces between maximal runs of separators. A
      run at the start or the end leaves an empty first or last piece, and
      the empty string splits into one empty piece. */
  function SplitOnRuns(s: string): (r: seq<string>)
    ensures |r| >= 1
    ensures forall p :: 0 <= p < |r| ==> NoSeparators(r[p])
    decreases |s|
  {
    var i := FirstSeparator(s);
    if i == |s| then [s]
    else [s[..i]] + SplitOnRuns(s[RunEnd(s, i)..])
  }

  /** Joining with nothing glues the first piece to the join of the rest. */
  lemma JoinGlued(head: string, rest: seq<string>)
    requires rest != []
    ensures Join([head] + rest, "") == head + Join(rest, "")
  {
    assert ([head] + rest)[1..] == rest;
    assert head + "" == head;
  }

  /** correctId. */
  function CorrectId(s: string): string
  {
    Join(SplitOnRuns(s), "")
  }

  /** The reference meaning: `s` with every `'` and space deleted. */
  function Deleted(s: string): (r: string)
    ensures NoSeparators(r)
    ensures |r| <= |s|
  {
    if s == [] then []
    else (if IsIdSeparator(s[0]) then [] else [s[0]]) + Deleted(s[1..])
  }

  /** Deletion distributes over concatenation: the characters that remain
      keep their order. */
  lemma {:induction false} DeletedAppend(a: string, b: string)
    ensures Deleted(a + b) == Deleted(a) + Deleted(b)
  {
    if a == [] {
      assert a + b == b;
    } else {
      var head := if IsIdSeparator(a[0]) then [] else [a[0]];
      assert (a + b)[0] == a[0];
      assert (a + b)[1..] == a[1..] + b;
      DeletedAppend(a[1..], b);
      calc {
        Deleted(a + b);
        head + Deleted(a[1..] + b);
        head + (Deleted(a[1..]) + Deleted(b));
        (head + Deleted(a[1..])) + Deleted(b);
        Deleted(a) + Deleted(b);
      }
    }
  }

  /** A string without separators is left as it is. */
  lemma {:induction false} DeletedKeeps(s: string)
    requires NoSeparators(s)
    ensures Deleted(s) == s
  {
    if s != [] {
      DeletedKeeps(s[1..]);
    }
  }

  /** A run of separators disappears. */
  lemma {:induction false} DeletedRun(s: string)
    requires forall k :: 0 <= k < |s| ==> IsIdSeparator(s[k])
    ensures Deleted(s) == []
  {
    if s != [] {
      DeletedRun(s[1..]);
    }
  }

  /** Splitting on runs and joining with nothing deletes exactly the
      separators. */
  lemma {:induction false} CorrectIdIsDeletion(s: string)
    ensures CorrectId(s) == Deleted(s)
    decreases |s|
  {
    var i := FirstSeparator(s);
    if i == |s| {
      assert s[..i] == s;
      DeletedKeeps(s);

    } else {
      var j := RunEnd(s, i);
      var head, run, rest := s[..i], s[i..j], s[j..];
      calc {
        CorrectId(s);
        Join([head] + SplitOnRuns(rest), "");
        { JoinGlued(head, SplitOnRuns(rest)); }
        head + CorrectId(rest);
        { CorrectIdIsDeletion(rest); }
        head + Deleted(rest);
        { DeletedKeeps(head); DeletedRun(run); }
        Deleted(head) + Deleted(run) + Deleted(rest);
        { DeletedAppend(head, run); }
        Deleted(head + run) + Deleted(rest);
        { DeletedAppend(head + run, rest); }
        Deleted(head + run + rest);
        { assert head + run + rest == s; }
        Deleted(s);
      }
    }
  }

  /** The id holds neither `'` nor a space, keeps every other character in
      order, and a second application changes nothing. */
  lemma CorrectIdProperties(s: string)
    ensures NoSeparators(CorrectId(s))
    ensures NoSeparators(s) ==> CorrectId(s) == s
    ensures CorrectId(CorrectId(s)) == CorrectId(s)
  {
    CorrectIdIsDeletion(s);
    CorrectIdIsDeletion(Deleted(s));
    DeletedKeeps(Deleted(s));
    if NoSeparators(s) {
      DeletedKeeps(s);
    }
  }

  /** Ids of concatenated names are the concatenated ids. */
  lemma CorrectIdAppend(a: string, b: string)
    ensures CorrectId(a + b) == CorrectId(a) + CorrectId(b)
  {
    CorrectIdIsDeletion(a + b);
    CorrectIdIsDeletion(a);
    CorrectIdIsDeletion(b);
    DeletedAppend(a, b);
  }

  /** A run of `'` and spaces between two words disappears and the words
      are glued together, as in "Shor's Stone" becoming "ShorsStone". */
  lemma CorrectIdGluesWords(a: string, run: string, b: string)
    requires NoSeparators(a) && NoSeparators(b)
    requires forall k :: 0 <= k < |run| ==> IsIdSeparator(run[k])
    ensures CorrectId(a + run + b) == a + b
  {
    calc {
      CorrectId(a + run + b);
      { CorrectIdIsDeletion(a + run + b); }
      Deleted(a + run + b);
      { DeletedAppend(a + run, b); }
      Deleted(a + run) + Deleted(b);
      { DeletedAppend(a, run); }
      Deleted(a) + Deleted(run) + Deleted(b);
      { DeletedKeeps(a); DeletedRun(run); DeletedKeeps(b); }
      a + [] + b;
      { assert a + [] == a; }
      a + b;
    }
  }
}

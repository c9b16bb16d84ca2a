/**
 * `arrayofuint`: the parser of the `-g` group list. It turns a C string such as
 * "1,2,staff" into group ids written into the caller's array, stopping at a capacity.
 *
 * The reference meaning is given in two layers: `Lex` cuts the text into tokens
 * (decimal numbers, group names capped at 31 characters, and the first character
 * that may not appear where it stands), and `Resolve` turns tokens into ids through
 * the group database until the capacity is used up. `ArrayOfUint` is the cursor-
 * over-buffer parser itself, proved to compute `GroupList`.
 */
module GroupListParser {
  import opened Wrappers
  import opened CType

  /** sizeof(grname) - 1: the longest group name that is looked up */
  const NameMax: nat := 31

  datatype Token = Num(value: nat) | Name(name: string) | Bad(c: char)

  datatype ParseError =
    | UnknownGroup(name: string)  // getgrnam found no such group
    | IllegalChar(c: char)        // a character that may not stand between elements

  predicate IsDelim(c: char) { IsSpace(c) || c == ':' || c == ',' }

  predicate IsNameStart(c: char) { IsAlpha(c) || c == '_' }

  predicate IsNameChar(c: char) { IsAlnum(c) || c == '_' }

  /** The characters a group list may contain at all. */
  predicate IsAllowed(c: char) { IsNameChar(c) || IsDelim(c) }

  predicate AllNameChars(s: string) { forall i :: 0 <= i < |s| ==> IsNameChar(s[i]) }

  /** A group name as the parser collects it: a letter or `_`, then letters, digits or `_`. */
  predicate IsGroupName(s: string)
  {
    0 < |s| <= NameMax && IsNameStart(s[0]) && AllNameChars(s)
  }

  /** Empty, or starting with a delimiter: what may follow a complete element. */
  predicate SepStart(s: string) { s == [] || IsDelim(s[0]) }

  /** The length of the longest prefix of digits. */
  function DigitRun(s: string): (k: nat)
    ensures k <= |s| && AllDigits(s[..k])
    ensures k < |s| ==> !IsDigit(s[k])
  {
    if s == [] || !IsDigit(s[0]) then 0
    else
      var k := 1 + DigitRun(s[1..]);
      assert forall i :: 1 <= i < k ==> s[i] == s[1..][i - 1];
      k
  }

  /** The length of the longest prefix of name characters. */
  function NameRun(s: string): (k: nat)
    ensures k <= |s| && AllNameChars(s[..k])
    ensures k < |s| ==> !IsNameChar(s[k])
  {
    if s == [] || !IsNameChar(s[0]) then 0
    else
      var k := 1 + NameRun(s[1..]);
      assert forall i :: 1 <= i < k ==> s[i] == s[1..][i - 1];
      k
  }

  function Min(a: nat, b: nat): nat { if a <= b then a else b }

  /**
   * The tokens of a group list, left to right. Delimiters separate elements and
   * add nothing; a digit run directly followed by a letter is a number and then a
   * name; a name is cut after 31 characters. Lexing ends at the first character
   * that may not stand where it is, which becomes a `Bad` token.
   */
  function Lex(s: string): (toks: seq<Token>)
    ensures |toks| <= |s|
    decreases |s|
  {
    if s == [] then []
    else if IsDigit(s[0]) then
      var k := DigitRun(s);
      [Num(Value(s[..k]))] + Lex(s[k..])
    else if IsNameStart(s[0]) then
      var k := Min(NameRun(s), NameMax);
      [Name(s[..k])] + LexAfterName(s[k..])
    else if IsDelim(s[0]) then Lex(s[1..])
    else [Bad(s[0])]
  }

  /** What follows a group name: the end, a delimiter, or a character that is refused. */
  function LexAfterName(s: string): (toks: seq<Token>)
    ensures |toks| <= |s|
    decreases |s|
  {
    if s == [] then []
    else if IsDelim(s[0]) then Lex(s[1..])
    else [Bad(s[0])]
  }

  /**
   * Append to `acc` the ids of `toks` while `room` slots are left. Once the capacity
   * is used up the rest is not looked at, so later errors go unnoticed.
   */
  function Resolve(acc: seq<nat>, toks: seq<Token>, room: nat, groups: string -> Option<nat>): (r: Result<seq<nat>, ParseError>)
    ensures r.Success? ==> |acc| <= |r.value| <= |acc| + room && |r.value| <= |acc| + |toks|
    ensures r.Success? ==> r.value[..|acc|] == acc
    decreases |toks|
  {
    if toks == [] || room == 0 then Success(acc)
    else
      match toks[0]
      case Num(v) => KeepsPrefix(acc, v); Resolve(acc + [v], toks[1..], room - 1, groups)
      case Name(g) =>
        (match groups(g)
         case None => Failure(UnknownGroup(g))
         case Some(gid) => KeepsPrefix(acc, gid); Resolve(acc + [gid], toks[1..], room - 1, groups))
      case Bad(c) => Failure(IllegalChar(c))
  }

  /** Whatever extends `acc + [id]` extends `acc`. */
  lemma KeepsPrefix(acc: seq<nat>, id: nat)
    ensures forall r: seq<nat> :: |acc| + 1 <= |r| && r[..|acc| + 1] == acc + [id] ==> r[..|acc|] == acc
  {
    forall r: seq<nat> | |acc| + 1 <= |r| && r[..|acc| + 1] == acc + [id]
      ensures r[..|acc|] == acc
    {
      assert r[..|acc|] == r[..|acc| + 1][..|acc|];
    }
  }

  /**
   * What `arrayofuint(x, maxidx, arr)` computes once the name branch makes the same
   * capacity check as the numeric branch: never more than `maxidx` ids.
   */
  function GroupList(x: string, maxidx: nat, groups: string -> Option<nat>): (r: Result<seq<nat>, ParseError>)
    ensures r.Success? ==> |r.value| <= maxidx
  {
    Resolve([], Lex(x), maxidx, groups)
  }

  /**
   * The element loop exactly as cycles.c:80-110 has it: the numeric branch stops once
   * `idx >= maxidx` (cycles.c:89-90), but the name branch (cycles.c:103) stores its id
   * and carries on without that check. The result is the sequence of slots written.
   */
  function ResolveAsWritten(acc: seq<nat>, toks: seq<Token>, maxidx: nat, groups: string -> Option<nat>)
    : (r: Result<seq<nat>, ParseError>)
    ensures r.Success? ==> |acc| <= |r.value| <= |acc| + |toks|
    decreases |toks|
  {
    if toks == [] then Success(acc)
    else
      match toks[0]
      case Num(v) =>
        if |acc| + 1 >= maxidx then Success(acc + [v])
        else ResolveAsWritten(acc + [v], toks[1..], maxidx, groups)
      case Name(g) =>
        (match groups(g)
         case None => Failure(UnknownGroup(g))
         case Some(gid) => ResolveAsWritten(acc + [gid], toks[1..], maxidx, groups))
      case Bad(c) => Failure(IllegalChar(c))
  }

  /** What `arrayofuint(x, maxidx, arr)` writes as the source stands. */
  function GroupListAsWritten(x: string, maxidx: nat, groups: string -> Option<nat>): (r: Result<seq<nat>, ParseError>)
    ensures r.Success? ==> |r.value| <= |Lex(x)| <= |x|
  {
    ResolveAsWritten([], Lex(x), maxidx, groups)
  }

  /** The C string's character at `i`, or the terminating NUL once the text is exhausted. */
  function At(x: string, i: nat): (c: char)
    requires i <= |x|
  {
    if i < |x| then x[i] else '\0'
  }

  // ---------------------------------------------------------------------------
  // The parser

  /**
   * `arrayofuint` with the capacity check after the name branch as well (the
   * correction of `ResolveAsWritten`). It advances a cursor over `x`, writes `arr` in place and fills
   * a 32-character name buffer. On success the first `n` slots hold the parsed ids
   * and the rest of `arr` is untouched.
   */
  method ArrayOfUint(x: string, maxidx: nat, arr: array<nat>, groups: string -> Option<nat>)
    returns (r: Result<nat, ParseError>)
    requires CString(x)
    requires 0 < maxidx <= arr.Length
    modifies arr
    ensures GroupList(x, maxidx, groups).Failure? ==> r == Failure(GroupList(x, maxidx, groups).error)
    ensures GroupList(x, maxidx, groups).Success? ==>
      var ids := GroupList(x, maxidx, groups).value;
      r == Success(|ids|) && arr[..] == ids + old(arr[..])[|ids|..]
  {
    ghost var spec := GroupList(x, maxidx, groups);
    ghost var filled: seq<nat> := [];
    ghost var before := arr[..];
    var idx: nat := 0;
    var pos: nat := 0;
    assert x[pos..] == x;
    while pos < |x|
      invariant pos <= |x| && idx == |filled| < maxidx
      invariant |before| == arr.Length && arr[..] == filled + before[idx..]
      invariant spec == Resolve(filled, Lex(x[pos..]), maxidx - idx, groups)
      decreases |x| - pos
    {
      var stop;
      stop, pos, idx, filled := Element(x, pos, arr, idx, maxidx, groups, spec, filled, before);
      if stop.Some? {
        return stop.value;
      }
    }
    assert x[pos..] == [];
    return Success(idx);
  }

  /**
   * What one turn of the outer loop leaves behind: the final result when `stop` is
   * set, and otherwise the loop invariant at `next` with `idx` slots filled.
   */
  ghost predicate Turn(x: string, maxidx: nat, groups: string -> Option<nat>, spec: Result<seq<nat>, ParseError>,
                       before: seq<nat>, cells: seq<nat>,
                       stop: Option<Result<nat, ParseError>>, next: nat, idx: nat, filled: seq<nat>)
  {
    && (stop.None? ==>
          next <= |x| && idx == |filled| < maxidx && idx <= |before| && cells == filled + before[idx..] &&
          spec == Resolve(filled, Lex(x[next..]), maxidx - idx, groups))
    && (stop.Some? && spec.Failure? ==> stop.value == Failure(spec.error))
    && (stop.Some? && spec.Success? ==>
          stop.value == Success(|spec.value|) && |spec.value| <= |before| &&
          cells == spec.value + before[|spec.value|..])
  }

  /**
   * One turn of the outer loop: an element (a number, a name, or a number directly
   * followed by a name) and the character after it.
   */
  method Element(x: string, pos: nat, arr: array<nat>, idx: nat, maxidx: nat, groups: string -> Option<nat>,
                 ghost spec: Result<seq<nat>, ParseError>, ghost filled: seq<nat>, ghost before: seq<nat>)
    returns (stop: Option<Result<nat, ParseError>>, next: nat, idx': nat, ghost filled': seq<nat>)
    requires CString(x) && pos < |x|
    requires idx == |filled| < maxidx <= arr.Length == |before| && arr[..] == filled + before[idx..]
    requires spec == Resolve(filled, Lex(x[pos..]), maxidx - idx, groups)
    modifies arr
    ensures stop.None? ==> pos < next
    ensures Turn(x, maxidx, groups, spec, before, arr[..], stop, next, idx', filled')
  {
    if IsDigit(x[pos]) {
      var v, end := NumberElement(x, pos, arr, idx, maxidx, groups, spec, filled, before);
      stop, next, idx', filled' := AfterNumber(x, end, arr, idx, maxidx, groups, v, spec, filled, before);
    } else {
      stop, next, idx', filled' := NameOrEnd(x, pos, arr, idx, maxidx, groups, spec, filled, before);
    }
  }

  /** After a number is stored: the capacity check (cycles.c:89-90), then what follows the digit run. */
  method AfterNumber(x: string, end: nat, arr: array<nat>, idx: nat, maxidx: nat, groups: string -> Option<nat>, v: nat,
                     ghost spec: Result<seq<nat>, ParseError>, ghost filled: seq<nat>, ghost before: seq<nat>)
    returns (stop: Option<Result<nat, ParseError>>, next: nat, idx': nat, ghost filled': seq<nat>)
    requires CString(x) && end <= |x| && (end < |x| ==> !IsDigit(x[end]))
    requires idx == |filled| < maxidx <= arr.Length == |before| && arr[..] == (filled + [v]) + before[idx + 1..]
    requires spec == Resolve(filled + [v], Lex(x[end..]), maxidx - (idx + 1), groups)
    modifies arr
    ensures stop.None? ==> end < next
    ensures Turn(x, maxidx, groups, spec, before, arr[..], stop, next, idx', filled')
  {
    if idx + 1 >= maxidx {
      NoRoom(spec, filled + [v], Lex(x[end..]), groups);
      stop, next, idx', filled' := Some(Success(idx + 1)), end, idx + 1, filled + [v];
      Stopped(x, maxidx, groups, spec, before, arr[..], stop, next, idx', filled');
      return;
    }
    stop, next, idx', filled' := NameOrEnd(x, end, arr, idx + 1, maxidx, groups, spec, filled + [v], before);
  }

  /**
   * The rest of a turn once no digit stands at `pos`: a name if one starts there,
   * then the character that ends the element.
   */
  method NameOrEnd(x: string, pos: nat, arr: array<nat>, idx: nat, maxidx: nat, groups: string -> Option<nat>,
                   ghost spec: Result<seq<nat>, ParseError>, ghost filled: seq<nat>, ghost before: seq<nat>)
    returns (stop: Option<Result<nat, ParseError>>, next: nat, idx': nat, ghost filled': seq<nat>)
    requires CString(x) && pos <= |x| && (pos < |x| ==> !IsDigit(x[pos]))
    requires idx == |filled| < maxidx <= arr.Length == |before| && arr[..] == filled + before[idx..]
    requires spec == Resolve(filled, Lex(x[pos..]), maxidx - idx, groups)
    modifies arr
    ensures stop.None? ==> pos < next
    ensures Turn(x, maxidx, groups, spec, before, arr[..], stop, next, idx', filled')
  {
    if IsNameStart(At(x, pos)) {
      var found, name, gid, end := NameElement(x, pos, arr, idx, maxidx, groups, spec, filled, before);
      stop, next, idx', filled' := AfterName(x, end, arr, idx, maxidx, groups, found, name, gid, spec, filled, before);
    } else {
      LexAtOther(x, pos);
      idx', filled' := idx, filled;
      stop, next := Terminator(x, pos, idx', maxidx, groups, spec, filled');
      Terminated(x, maxidx, groups, spec, before, arr[..], stop, next, idx', filled');
    }
  }

  /** After a name: the unknown-name error, the store's capacity check, then the terminator test. */
  method AfterName(x: string, end: nat, arr: array<nat>, idx: nat, maxidx: nat, groups: string -> Option<nat>,
                   found: bool, name: string, gid: nat,
                   ghost spec: Result<seq<nat>, ParseError>, ghost filled: seq<nat>, ghost before: seq<nat>)
    returns (stop: Option<Result<nat, ParseError>>, next: nat, idx': nat, ghost filled': seq<nat>)
    requires CString(x) && end <= |x| && idx == |filled| < maxidx <= arr.Length == |before|
    requires !found ==> spec == Failure(UnknownGroup(name))
    requires found ==> arr[..] == (filled + [gid]) + before[idx + 1..]
    requires found ==> spec == Resolve(filled + [gid], LexAfterName(x[end..]), maxidx - (idx + 1), groups)
    ensures stop.None? ==> end < next
    ensures Turn(x, maxidx, groups, spec, before, arr[..], stop, next, idx', filled')
  {
    if !found {
      stop, next, idx', filled' := Some(Failure(UnknownGroup(name))), end, idx, filled;
      Stopped(x, maxidx, groups, spec, before, arr[..], stop, next, idx', filled');
      return;
    }
    idx', filled' := idx + 1, filled + [gid];
    if idx' >= maxidx {
      NoRoom(spec, filled', LexAfterName(x[end..]), groups);
      stop, next := Some(Success(idx')), end;
      Stopped(x, maxidx, groups, spec, before, arr[..], stop, next, idx', filled');
      return;
    }
    stop, next := Terminator(x, end, idx', maxidx, groups, spec, filled');
    Terminated(x, maxidx, groups, spec, before, arr[..], stop, next, idx', filled');
  }

  /** A turn that sets `stop` with the final result. */
  lemma Stopped(x: string, maxidx: nat, groups: string -> Option<nat>, spec: Result<seq<nat>, ParseError>,
                before: seq<nat>, cells: seq<nat>,
                stop: Option<Result<nat, ParseError>>, next: nat, idx: nat, filled: seq<nat>)
    requires stop.Some?
    requires spec.Failure? ==> stop.value == Failure(spec.error)
    requires spec.Success? ==> spec.value == filled && |filled| <= |before| && cells == filled + before[|filled|..]
    requires spec.Success? ==> stop.value == Success(|filled|)
    ensures Turn(x, maxidx, groups, spec, before, cells, stop, next, idx, filled)
  {
  }

  /** A turn that ends with `Terminator`, after `idx` slots were filled. */
  lemma Terminated(x: string, maxidx: nat, groups: string -> Option<nat>, spec: Result<seq<nat>, ParseError>,
                   before: seq<nat>, cells: seq<nat>,
                   stop: Option<Result<nat, ParseError>>, next: nat, idx: nat, filled: seq<nat>)
    requires idx == |filled| < maxidx && idx <= |before| && cells == filled + before[idx..]
    requires stop.None? ==> next <= |x| && spec == Resolve(filled, Lex(x[next..]), maxidx - idx, groups)
    requires stop.Some? && spec.Failure? ==> stop.value == Failure(spec.error)
    requires stop.Some? && spec.Success? ==> stop.value == Success(|spec.value|) && spec.value == filled
    ensures Turn(x, maxidx, groups, spec, before, cells, stop, next, idx, filled)
  {
  }

  /**
   * The end of an element: the NUL ends the parse, a delimiter is skipped and any
   * other character is refused.
   */
  method Terminator(x: string, pos: nat, idx: nat, maxidx: nat, groups: string -> Option<nat>,
                    ghost spec: Result<seq<nat>, ParseError>, ghost filled: seq<nat>)
    returns (stop: Option<Result<nat, ParseError>>, next: nat)
    requires CString(x) && pos <= |x| && idx == |filled| < maxidx
    requires spec == Resolve(filled, LexAfterName(x[pos..]), maxidx - idx, groups)
    ensures stop.None? ==> pos < next <= |x| && spec == Resolve(filled, Lex(x[next..]), maxidx - idx, groups)
    ensures stop.Some? && spec.Failure? ==> stop.value == Failure(spec.error)
    ensures stop.Some? && spec.Success? ==> stop.value == Success(|spec.value|) && spec.value == filled
  {
    var c := At(x, pos);
    ElementEnd(spec, filled, x, pos, maxidx - idx, groups);
    if c == '\0' {
      return Some(Success(idx)), pos;
    }
    if !IsDelim(c) {
      return Some(Failure(IllegalChar(c))), pos;
    }
    return None, pos + 1;
  }

  /**
   * The numeric branch: scan the digit run at `pos` and store its value `v` in slot
   * `idx`. Returns the value and where the run ended.
   */
  method NumberElement(x: string, pos: nat, arr: array<nat>, idx: nat, maxidx: nat, groups: string -> Option<nat>,
                       ghost spec: Result<seq<nat>, ParseError>, ghost filled: seq<nat>, ghost before: seq<nat>)
    returns (v: nat, end: nat)
    requires pos < |x| && IsDigit(x[pos])
    requires idx == |filled| < maxidx && idx < arr.Length == |before| && arr[..] == filled + before[idx..]
    requires spec == Resolve(filled, Lex(x[pos..]), maxidx - idx, groups)
    modifies arr
    ensures pos < end <= |x| && (end < |x| ==> !IsDigit(x[end]))
    ensures arr[..] == (filled + [v]) + before[idx + 1..]
    ensures spec == Resolve(filled + [v], Lex(x[end..]), maxidx - (idx + 1), groups)
  {
    v, end := ScanNumber(x, pos);
    ResolveNum(filled, Lex(x[end..]), v, maxidx - idx, groups);
    FillSlot(filled, v, before);
    arr[idx] := v;
  }

  /**
   * The name branch: collect the name at `pos`, look it up and, when the group
   * exists, store its id `gid` in slot `idx`. Returns whether it existed, the name,
   * the id, and where the name ended.
   */
  method NameElement(x: string, pos: nat, arr: array<nat>, idx: nat, maxidx: nat, groups: string -> Option<nat>,
                     ghost spec: Result<seq<nat>, ParseError>, ghost filled: seq<nat>, ghost before: seq<nat>)
    returns (found: bool, name: string, gid: nat, end: nat)
    requires pos < |x| && IsNameStart(x[pos])
    requires idx == |filled| < maxidx && idx < arr.Length == |before| && arr[..] == filled + before[idx..]
    requires spec == Resolve(filled, Lex(x[pos..]), maxidx - idx, groups)
    modifies arr
    ensures pos < end <= |x|
    ensures found == groups(name).Some?
    ensures !found ==> spec == Failure(UnknownGroup(name))
    ensures found ==> arr[..] == (filled + [gid]) + before[idx + 1..]
    ensures found ==> spec == Resolve(filled + [gid], LexAfterName(x[end..]), maxidx - (idx + 1), groups)
  {
    name, end := ScanName(x, pos);
    gid := 0;
    match groups(name) {
      case None =>
        found := false;
        ResolveUnknownName(filled, LexAfterName(x[end..]), name, maxidx - idx, groups);
      case Some(g) =>
        found, gid := true, g;
        ResolveName(filled, LexAfterName(x[end..]), name, gid, maxidx - idx, groups);
        FillSlot(filled, gid, before);
        arr[idx] := gid;
    }
  }

  /** No room is left: the result is what has been filled. */
  lemma NoRoom(spec: Result<seq<nat>, ParseError>, filled: seq<nat>, rest: seq<Token>, groups: string -> Option<nat>)
    requires spec == Resolve(filled, rest, 0, groups)
    ensures spec == Success(filled)
  {
  }

  /** The three ways an element can end: the NUL, a refused character, a delimiter. */
  lemma ElementEnd(spec: Result<seq<nat>, ParseError>, filled: seq<nat>, x: string, pos: nat, room: nat,
                   groups: string -> Option<nat>)
    requires CString(x) && pos <= |x| && 0 < room
    requires spec == Resolve(filled, LexAfterName(x[pos..]), room, groups)
    ensures At(x, pos) == '\0' ==> spec == Success(filled)
    ensures At(x, pos) != '\0' && !IsDelim(At(x, pos)) ==> spec == Failure(IllegalChar(At(x, pos)))
    ensures At(x, pos) != '\0' && IsDelim(At(x, pos)) ==>
      pos < |x| && spec == Resolve(filled, Lex(x[pos + 1..]), room, groups)
  {
    if pos < |x| {
      assert x[pos..][0] == x[pos];
      assert x[pos..][1..] == x[pos + 1..];
    }
  }

  /**
   * The inner loop of the numeric branch: `v = v * 10 + c - '0'` over the digit run
   * that starts at `start`; `end` is where the first non-digit (or the NUL) stands.
   */
  method ScanNumber(x: string, start: nat) returns (v: nat, end: nat)
    requires start < |x| && IsDigit(x[start])
    ensures start < end <= |x| && AllDigits(x[start..end]) && v == Value(x[start..end])
    ensures end < |x| ==> !IsDigit(x[end])
    ensures Lex(x[start..]) == [Num(v)] + Lex(x[end..])
  {
    var c := x[start];
    var pos := start + 1;
    v := 0;
    while IsDigit(c)
      invariant start < pos <= |x| + 1
      invariant c == At(x, pos - 1)
      invariant AllDigits(x[start..pos - 1]) && v == Value(x[start..pos - 1])
      decreases |x| + 1 - pos
    {
      DigitsExtend(x, start, pos - 1);
      v := v * 10 + DigitValue(c);
      c := At(x, pos);
      pos := pos + 1;
    }
    end := pos - 1;
    LexAtNumber(x, start, end);
  }

  /**
   * The inner loop of the name branch: copy at most 31 name characters into the
   * 32-character buffer `grname` and terminate it; `end` is where copying stopped.
   */
  method ScanName(x: string, start: nat) returns (name: string, end: nat)
    requires start < |x| && IsNameStart(x[start])
    ensures start < end <= |x| && name == x[start..end]
    ensures IsGroupName(name)
    ensures |name| < NameMax ==> end == |x| || !IsNameChar(x[end])
    ensures Lex(x[start..]) == [Name(name)] + LexAfterName(x[end..])
  {
    var c := x[start];
    var pos := start + 1;
    var grname := new char[32];
    var n := 0;
    while n < grname.Length - 1 && IsNameChar(c)
      invariant 0 <= n <= NameMax && pos == start + n + 1 && pos <= |x| + 1
      invariant c == At(x, pos - 1)
      invariant grname[..n] == x[start..start + n]
      invariant AllNameChars(x[start..start + n])
      decreases NameMax - n
    {
      NameCharsExtend(x, start, start + n);
      grname[n] := c;
      n := n + 1;
      assert grname[..n] == grname[..n - 1] + [c];
      c := At(x, pos);
      pos := pos + 1;
    }
    grname[n] := '\0';
    name := grname[..n];
    end := pos - 1;
    LexAtName(x, start, end);
  }

  lemma DigitsExtend(x: string, start: nat, end: nat)
    requires start <= end < |x| && AllDigits(x[start..end]) && IsDigit(x[end])
    ensures AllDigits(x[start..end + 1])
    ensures Value(x[start..end + 1]) == Value(x[start..end]) * 10 + DigitValue(x[end])
  {
    assert x[start..end + 1][..end - start] == x[start..end];
  }

  lemma NameCharsExtend(x: string, start: nat, end: nat)
    requires start <= end < |x| && AllNameChars(x[start..end]) && IsNameChar(x[end])
    ensures AllNameChars(x[start..end + 1])
    ensures x[start..end + 1] == x[start..end] + [x[end]]
  {
    assert x[start..end + 1] == x[start..end] + [x[end]];
  }

  /** A digit run from `start` to `end` is one number token. */
  lemma LexAtNumber(x: string, start: nat, end: nat)
    requires start < end <= |x| && AllDigits(x[start..end])
    requires end < |x| ==> !IsDigit(x[end])
    ensures Lex(x[start..]) == [Num(Value(x[start..end]))] + Lex(x[end..])
  {
    var s := x[start..];
    assert s[..end - start] == x[start..end];
    assert s[end - start..] == x[end..];
    DigitRunIs(s, end - start);
  }

  /** A name run from `start` to `end`, ended by the 31-character cap or by a non-name character. */
  lemma LexAtName(x: string, start: nat, end: nat)
    requires start < end <= |x| && end - start <= NameMax
    requires IsNameStart(x[start]) && AllNameChars(x[start..end])
    requires end - start < NameMax ==> end == |x| || !IsNameChar(x[end])
    ensures Lex(x[start..]) == [Name(x[start..end])] + LexAfterName(x[end..])
  {
    var s := x[start..];
    assert s[..end - start] == x[start..end];
    assert s[end - start..] == x[end..];
    NameRunAtLeast(s, end - start);
  }

  /** Where neither a number nor a name starts, `Lex` and `LexAfterName` agree. */
  lemma LexAtOther(x: string, p: nat)
    requires p <= |x|
    requires p < |x| ==> !IsDigit(x[p]) && !IsNameStart(x[p])
    ensures Lex(x[p..]) == LexAfterName(x[p..])
  {
  }

  lemma ResolveNum(acc: seq<nat>, t: seq<Token>, v: nat, room: nat, groups: string -> Option<nat>)
    requires room > 0
    ensures Resolve(acc, [Num(v)] + t, room, groups) == Resolve(acc + [v], t, room - 1, groups)
  {
    assert ([Num(v)] + t)[1..] == t;
  }

  lemma ResolveName(acc: seq<nat>, t: seq<Token>, g: string, gid: nat, room: nat, groups: string -> Option<nat>)
    requires room > 0 && groups(g) == Some(gid)
    ensures Resolve(acc, [Name(g)] + t, room, groups) == Resolve(acc + [gid], t, room - 1, groups)
  {
    assert ([Name(g)] + t)[1..] == t;
  }

  lemma ResolveUnknownName(acc: seq<nat>, t: seq<Token>, g: string, room: nat, groups: string -> Option<nat>)
    requires room > 0 && groups(g).None?
    ensures Resolve(acc, [Name(g)] + t, room, groups) == Failure(UnknownGroup(g))
  {
  }

  /** Writing slot |filled| with `v` extends the filled prefix and leaves the slots above it as they were. */
  lemma FillSlot(filled: seq<nat>, v: nat, before: seq<nat>)
    requires |filled| < |before|
    ensures (filled + before[|filled|..])[|filled| := v] == (filled + [v]) + before[|filled| + 1..]
  {
  }

  /** Characterisation of `DigitRun` by its two defining facts. */
  lemma {:induction false} DigitRunIs(s: string, k: nat)
    requires k <= |s| && AllDigits(s[..k])
    requires k < |s| ==> !IsDigit(s[k])
    ensures DigitRun(s) == k
  {
    if k > 0 {
      assert IsDigit(s[..k][0]);
      assert s[1..][..k - 1] == s[..k][1..];
      DigitRunIs(s[1..], k - 1);
    } else if s != [] {
      assert !IsDigit(s[0]);
    }
  }

  /** Characterisation of `NameRun` by its two defining facts. */
  lemma {:induction false} NameRunIs(s: string, k: nat)
    requires k <= |s| && AllNameChars(s[..k])
    requires k < |s| ==> !IsNameChar(s[k])
    ensures NameRun(s) == k
  {
    if k > 0 {
      assert IsNameChar(s[..k][0]);
      assert s[1..][..k - 1] == s[..k][1..];
      NameRunIs(s[1..], k - 1);
    } else if s != [] {
      assert !IsNameChar(s[0]);
    }
  }

  /** A name-loop exit after `n` characters: either 31 were taken or the run ended. */
  lemma NameRunAtLeast(s: string, n: nat)
    requires 0 < n <= NameMax && n <= |s| && AllNameChars(s[..n])
    requires n < NameMax ==> n == |s| || !IsNameChar(s[n])
    ensures Min(NameRun(s), NameMax) == n
  {
    if n < NameMax {
      NameRunIs(s, n);
    } else {
      assert forall i :: 0 <= i < n ==> IsNameChar(s[i]) by {
        forall i | 0 <= i < n ensures IsNameChar(s[i]) {
          assert s[..n][i] == s[i];
        }
      }
    }
  }
}

/** Finding tokens in a buffer. A buffer is the bytes received so far; it need not end in NUL. */
module WebParse {
  import opened Text

  datatype Index = Index(start: nat, len: nat)

  predicate Within(b: string, index: Index) {
    index.start + index.len <= |b|
  }

  function Slice(b: string, index: Index): (s: string)
    requires Within(b, index)
    ensures |s| == index.len
  {
    b[index.start..index.start + index.len]
  }

  predicate MatchAt(b: string, i: nat, token: string) {
    i + |token| <= |b| && b[i..i + |token|] == token
  }

  /** The first place from `i` on where the token stands. */
  function Find(b: string, i: nat, token: string): (r: Option<nat>)
    decreases |b| - i
  {
    if i + |token| > |b| then None
    else if MatchAt(b, i, token) then Some(i)
    else if i == |b| then None
    else Find(b, i + 1, token)
  }

  ghost predicate NoMatch(b: string, from: nat, to: nat, token: string) {
    forall k: nat :: from <= k < to ==> !MatchAt(b, k, token)
  }

  lemma {:induction false} FindExactly(b: string, i: nat, token: string)
    requires token != ""
    ensures var r := Find(b, i, token);
      if r.Some? then i <= r.value && MatchAt(b, r.value, token) && NoMatch(b, i, r.value, token)
      else NoMatch(b, i, |b|, token)
    decreases |b| - i
  {
    if i + |token| <= |b| && !MatchAt(b, i, token) && i < |b| {
      FindExactly(b, i + 1, token);
    }
  }

  lemma FoundAt(b: string, i: nat, token: string, j: nat)
    requires token != "" && i <= j && MatchAt(b, j, token) && NoMatch(b, i, j, token)
    ensures Find(b, i, token) == Some(j)
  {
    hide Find;
    FindExactly(b, i, token);
  }

  lemma NotFound(b: string, i: nat, token: string)
    requires token != "" && NoMatch(b, i, |b|, token)
    ensures Find(b, i, token) == None
  {
    hide Find;
    FindExactly(b, i, token);
  }

  /** A token found in a prefix is found at the same place in any longer buffer. */
  lemma FindInPrefix(p: string, b: string, i: nat, token: string)
    requires p <= b && token != "" && Find(p, i, token).Some?
    ensures Find(b, i, token) == Find(p, i, token)
  {
    hide Find, MatchAt;
    FindExactly(p, i, token);
    var j := Find(p, i, token).value;
    forall k: nat | i <= k <= j ensures MatchAt(b, k, token) <==> MatchAt(p, k, token) {
      MatchInPrefix(p, b, k, j, token);
    }
    FoundAt(b, i, token, j);
  }

  lemma MatchInPrefix(p: string, b: string, k: nat, j: nat, token: string)
    requires p <= b && k <= j && MatchAt(p, j, token)
    ensures MatchAt(b, k, token) <==> MatchAt(p, k, token)
  {
    assert b[k..k + |token|] == p[k..k + |token|];
  }

  predicate IsBlank(c: char) {
    c == ' ' || c == '\t'
  }

  /** The part of `b` between two places, without one blank at either side. */
  function TrimmedIndex(b: string, from: nat, to: nat, trim: bool): (r: Index)
    requires from <= to <= |b|
    ensures from <= r.start && r.start + r.len <= to
  {
    var start := if trim && from < to && IsBlank(b[from]) then from + 1 else from;
    var end := if trim && start < to && IsBlank(b[to - 1]) then to - 1 else to;
    Index(start, end - start)
  }

  datatype Read = Read(next: nat, index: Index)

  /** `iw_parse_read_to_token`: the text before the next token, and where it goes on. */
  function ReadTo(b: string, offset: nat, token: string, trim: bool): (r: Option<Read>)
    requires token != ""
    ensures r.Some? ==>
              offset < r.value.next <= |b| && Within(b, r.value.index)
              && r.value.index.start + r.value.index.len < r.value.next
    ensures r.Some? ==> offset <= r.value.index.start
  {
    FindExactly(b, offset, token);
    var j := Find(b, offset, token);
    if j.None? then None else Some(Read(j.value + |token|, TrimmedIndex(b, offset, j.value, trim)))
  }

  lemma ReadToInPrefix(p: string, b: string, offset: nat, token: string, trim: bool)
    requires p <= b && token != "" && ReadTo(p, offset, token, trim).Some?
    ensures ReadTo(b, offset, token, trim) == ReadTo(p, offset, token, trim)
  {
    hide Find, TrimmedIndex;
    FindInPrefix(p, b, offset, token);
    FindExactly(p, offset, token);
    TrimmedInPrefix(p, b, offset, Find(p, offset, token).value, trim);
  }

  lemma TrimmedInPrefix(p: string, b: string, from: nat, to: nat, trim: bool)
    requires p <= b && from <= to <= |p|
    ensures TrimmedIndex(b, from, to, trim) == TrimmedIndex(p, from, to, trim)
  {
  }

  lemma MatchChar(b: string, k: nat, c: char)
    ensures MatchAt(b, k, [c]) <==> k < |b| && b[k] == c
  {
    if k < |b| {
      assert b[k..k + 1] == [b[k]];
    }
  }

  /** Reading up to the first place where a character stands. */
  lemma ReadToChar(b: string, from: nat, token: char, trim: bool, j: nat)
    requires from <= j < |b| && b[j] == token && forall k :: from <= k < j ==> b[k] != token
    ensures ReadTo(b, from, [token], trim) == Some(Read(j + 1, TrimmedIndex(b, from, j, trim)))
  {
    hide Find, MatchAt;
    forall k: nat | from <= k < j ensures !MatchAt(b, k, [token]) {
      MatchChar(b, k, token);
    }
    MatchChar(b, j, token);
    FoundAt(b, from, [token], j);
  }

  lemma ReadToNothing(b: string, from: nat, token: char, trim: bool)
    requires forall k :: from <= k < |b| ==> b[k] != token
    ensures ReadTo(b, from, [token], trim) == None
  {
    hide Find, MatchAt;
    forall k: nat | from <= k < |b| ensures !MatchAt(b, k, [token]) {
      MatchChar(b, k, token);
    }
    NotFound(b, from, [token]);
  }

  /** `tolower` in the C locale. */
  function Lower(c: char): char {
    if 'A' <= c <= 'Z' then (c as int + 32) as char else c
  }

  predicate SameIgnoringCase(a: string, b: string) {
    |a| == |b| && forall i :: 0 <= i < |a| ==> Lower(a[i]) == Lower(b[i])
  }

  /** Two letters are the same if they are 32 apart; no other two characters are. */
  lemma LettersAre(c: char, d: char)
    ensures Lower(c) == Lower(d) <==>
      c == d || ('A' <= c <= 'Z' && d as int == c as int + 32) || ('A' <= d <= 'Z' && c as int == d as int + 32)
    ensures IsBlank(c) <==> c as int == 32 || c as int == 9
  {
  }

  /** `iw_parse_casecmp`. */
  predicate CaseCmp(compare: string, b: string, index: Index)
    requires Within(b, index)
  {
    SameIgnoringCase(compare, Slice(b, index))
  }

  lemma SliceInPrefix(p: string, b: string, index: Index)
    requires p <= b && Within(p, index)
    ensures Within(b, index) && Slice(b, index) == Slice(p, index)
  {
  }

  // ----- the loops

  /** `iw_parse_find_token`. */
  method FindToken(b: string, offset: nat, token: string) returns (found: bool, offset': nat)
    requires token != ""
    ensures found <==> Find(b, offset, token).Some?
    ensures offset' == if found then Find(b, offset, token).value + |token| else offset
  {
    var tmp := offset;
    while tmp + |token| <= |b|
      invariant offset <= tmp && Find(b, tmp, token) == Find(b, offset, token)
      decreases |b| - tmp
    {
      if b[tmp..tmp + |token|] == token {
        return true, tmp + |token|;
      }
      tmp := tmp + 1;
    }
    return false, offset;
  }

  /** `iw_parse_is_token`. */
  method IsToken(b: string, offset: nat, token: string) returns (found: bool, offset': nat)
    ensures found <==> MatchAt(b, offset, token)
    ensures offset' == if found then offset + |token| else offset
  {
    if offset + |token| <= |b| {
      if b[offset..offset + |token|] != token {
        return false, offset;
      }
      return true, offset + |token|;
    }
    return false, offset;
  }

  /** `iw_parse_read_to_token`. */
  method ReadToToken(b: string, offset: nat, token: string, trim: bool)
    returns (found: bool, offset': nat, index: Index)
    requires token != ""
    ensures found <==> ReadTo(b, offset, token, trim).Some?
    ensures found ==> Read(offset', index) == ReadTo(b, offset, token, trim).value
    ensures !found ==> offset' == offset
  {
    var tmp := offset;
    while tmp + |token| <= |b| && b[tmp..tmp + |token|] != token
      invariant offset <= tmp && Find(b, tmp, token) == Find(b, offset, token)
      decreases |b| - tmp
    {
      tmp := tmp + 1;
    }
    if tmp + |token| > |b| {
      return false, offset, Index(0, 0);
    }
    var start, end := offset, tmp;
    offset' := tmp + |token|;
    if trim {
      if IsBlank(b[start]) && start < end {
        start := start + 1;
      }
      if end > start && IsBlank(b[end - 1]) {
        end := end - 1;
      }
    }
    found, index := true, Index(start, end - start);
  }
}

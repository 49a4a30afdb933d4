/** The tokenizer of `readbuff.cpp`: words of a file, read through one buffer that is refilled and
    shifted, against splitting the whole file on white space. */
module ReadBuff {
  import opened Wrappers

  /** `isspace` in the C locale. */
  predicate IsSpace(c: char)
  {
    c == ' ' || 9 as char <= c <= 13 as char
  }

  // ----- the words of a whole stream

  function Skip(s: string): (t: string)
    ensures |t| <= |s|
    ensures t != [] ==> !IsSpace(t[0])
  {
    if s == [] || !IsSpace(s[0]) then s else Skip(s[1..])
  }

  function WordLen(s: string): (n: nat)
    ensures n <= |s|
    ensures forall i :: 0 <= i < n ==> !IsSpace(s[i])
    ensures n < |s| ==> IsSpace(s[n])
  {
    if s == [] || IsSpace(s[0]) then 0 else 1 + WordLen(s[1..])
  }

  /** The maximal runs of characters that are not white space. */
  function Words(s: string): seq<string>
    decreases |s|
  {
    var t := Skip(s);
    if t == [] then [] else [t[..WordLen(t)]] + Words(t[WordLen(t)..])
  }

  lemma {:induction false} SkipPrefix(a: string, c: char, b: string)
    requires IsSpace(c)
    ensures Skip(a) == [] ==> Skip(a + [c] + b) == Skip(b)
    ensures Skip(a) != [] ==> Skip(a + [c] + b) == Skip(a) + [c] + b
  {
    var s := a + [c] + b;
    if a == [] {
      assert s[1..] == b;
    } else if IsSpace(a[0]) {
      assert s[1..] == a[1..] + [c] + b;
      SkipPrefix(a[1..], c, b);
    }
  }

  /** The six characters of white space, by their codes: tab, line feed, vertical tab, form feed, carriage
      return and space. */
  predicate IsBlank(c: char)
  {
    c as int in {9, 10, 11, 12, 13, 32}
  }

  lemma BlanksAreSpaces(c: char)
    ensures IsBlank(c) <==> IsSpace(c)
  {
  }

  /** White space splits: what is on its two sides is split apart. */
  lemma {:induction false} WordsSplit(a: string, c: char, b: string)
    requires IsBlank(c)
    ensures Words(a + [c] + b) == Words(a) + Words(b)
    decreases |a|
  {
    SkipPrefix(a, c, b);
    var t := Skip(a);
    if t == [] {
      assert Words(a + [c] + b) == Words(b);
    } else {
      var n := WordLen(t);
      WordLenPrefix(t, c, b);
      CutBefore(t, c, b, n);
      WordsSplit(t[n..], c, b);
      JoinTokens(t[..n], Words(t[n..]), Words(b));
    }
  }

  lemma {:induction false} WordLenPrefix(t: string, c: char, b: string)
    requires IsSpace(c)
    ensures WordLen(t + [c] + b) == WordLen(t)
  {
    if t != [] && !IsSpace(t[0]) {
      assert (t + [c] + b)[1..] == t[1..] + [c] + b;
      WordLenPrefix(t[1..], c, b);
    }
  }

  /** Not empty, and without white space. */
  ghost predicate IsWord(w: string)
  {
    w != [] && forall i :: 0 <= i < |w| ==> !IsBlank(w[i])
  }

  /** What holds no white space is one word. */
  lemma {:induction false} WordStaysWhole(w: string)
    requires IsWord(w)
    ensures Words(w) == [w]
  {
    forall i | 0 <= i < |w| ensures !IsSpace(w[i]) { BlanksAreSpaces(w[i]); }
    assert Skip(w) == w;
    assert WordLen(w) == |w|;
    assert w[..|w|] == w && Words(w[|w|..]) == [];
  }

  /** What a text holds besides white space. */
  function Solid(s: string): string
  {
    if s == [] then [] else (if IsBlank(s[0]) then [] else [s[0]]) + Solid(s[1..])
  }

  function Joined(words: seq<string>): string
  {
    if words == [] then [] else words[0] + Joined(words[1..])
  }

  lemma {:induction false} SkipIsSolid(s: string)
    ensures Solid(Skip(s)) == Solid(s)
  {
    if s != [] && IsSpace(s[0]) { SkipIsSolid(s[1..]); }
  }

  lemma {:induction false} WordIsSolid(t: string, n: nat)
    requires n <= |t| && forall i :: 0 <= i < n ==> !IsSpace(t[i])
    ensures Solid(t) == t[..n] + Solid(t[n..])
  {
    if n > 0 {
      WordIsSolid(t[1..], n - 1);
      assert t[1..][n - 1..] == t[n..] && t[..n] == [t[0]] + t[1..][..n - 1];
    } else {
      assert t[0..] == t && t[..0] == [];
    }
  }

  function Min(x: nat, y: nat): nat { if x <= y then x else y }

  /** The words, cut into pieces of the buffer's size where they are longer. */
  function Tokens(s: string, size: nat): seq<string>
    requires 0 < size
    decreases |s|
  {
    var t := Skip(s);
    var n := Min(WordLen(t), size);
    if t == [] then [] else [t[..n]] + Tokens(t[n..], size)
  }

  lemma HeadIsWord(t: string, n: nat)
    requires 0 < n <= |t| && forall i :: 0 <= i < n ==> !IsSpace(t[i])
    ensures IsWord(t[..n])
  {
    forall i | 0 <= i < n ensures !IsBlank(t[..n][i]) { BlanksAreSpaces(t[i]); }
  }

  /** No character but white space is lost, and no token is empty, longer than the buffer or has white space
      in it. */
  lemma {:induction false} TokensKeepAll(s: string, size: nat)
    requires 0 < size
    ensures Joined(Tokens(s, size)) == Solid(s)
    ensures forall w :: w in Tokens(s, size) ==> IsWord(w) && |w| <= size
    decreases |s|
  {
    var t := Skip(s);
    SkipIsSolid(s);
    if t != [] {
      var n := Min(WordLen(t), size);
      WordIsSolid(t, n);
      HeadIsWord(t, n);
      TokensKeepAll(t[n..], size);
      assert Tokens(s, size) == [t[..n]] + Tokens(t[n..], size);
    }
  }

  /** The same for words, of any length. */
  lemma {:induction false} WordsKeepAll(s: string)
    ensures Joined(Words(s)) == Solid(s)
    ensures forall w :: w in Words(s) ==> IsWord(w)
    decreases |s|
  {
    var t := Skip(s);
    SkipIsSolid(s);
    if t != [] {
      var n := WordLen(t);
      WordIsSolid(t, n);
      HeadIsWord(t, n);
      WordsKeepAll(t[n..]);
    }
  }

  /** Tokens are split where words are. */
  lemma {:induction false} TokensSplit(a: string, c: char, b: string, size: nat)
    requires 0 < size && IsBlank(c)
    ensures Tokens(a + [c] + b, size) == Tokens(a, size) + Tokens(b, size)
    decreases |a|
  {
    SkipPrefix(a, c, b);
    var t := Skip(a);
    if t == [] {
      assert Tokens(a + [c] + b, size) == Tokens(b, size);
    } else {
      var n := Min(WordLen(t), size);
      WordLenPrefix(t, c, b);
      CutBefore(t, c, b, n);
      TokensSplit(t[n..], c, b, size);
      JoinTokens(t[..n], Tokens(t[n..], size), Tokens(b, size));
    }
  }

  lemma CutBefore(t: string, c: char, b: string, n: nat)
    requires n <= |t|
    ensures var s := t + [c] + b; s[..n] == t[..n] && s[n..] == t[n..] + [c] + b
  {
  }

  lemma JoinTokens(token: string, first: seq<string>, second: seq<string>)
    ensures [token] + (first + second) == [token] + first + second
  {
  }

  /** A word that is longer than the buffer is cut into pieces of its size. */
  lemma LongWordIsCut(w: string, size: nat)
    requires IsWord(w) && 0 < size < |w|
    ensures Tokens(w, size) == [w[..size]] + Tokens(w[size..], size)
  {
    forall i | 0 <= i < |w| ensures !IsSpace(w[i]) { BlanksAreSpaces(w[i]); }
    assert Skip(w) == w && WordLen(w) == |w|;
  }

  lemma {:induction false} SkipSpaces(s: string, k: nat)
    requires k <= |s| && forall i :: 0 <= i < k ==> IsSpace(s[i])
    ensures Skip(s) == Skip(s[k..])
  {
    if k > 0 {
      SkipSpaces(s[1..], k - 1);
      assert s[1..][k - 1..] == s[k..];
    }
  }

  /** What is skipped when k characters of white space start the buffered part. */
  lemma SkipTo(part: string, file: string, k: nat)
    requires k <= |part| && forall i :: 0 <= i < k ==> IsSpace(part[i])
    ensures k < |part| && !IsSpace(part[k]) ==> Skip(part + file) == part[k..] + file
    ensures k == |part| ==> Skip(part + file) == Skip(file)
  {
    SkipSpaces(part + file, k);
    assert (part + file)[k..] == part[k..] + file;
    assert k == |part| ==> part[k..] + file == file;
  }

  /** The token of k characters at the start of the buffered part, and the rest after its white space,
      if any. */
  lemma EndOfToken(part: string, file: string, k: nat, size: nat)
    requires k <= |part| <= size && forall i :: 0 <= i < k ==> !IsSpace(part[i])
    requires if k < |part| then IsSpace(part[k]) else |part| == size || file == []
    ensures Min(WordLen(part + file), size) == k && (part + file)[..k] == part[..k]
    ensures Skip(part[if k == |part| then k else k + 1..] + file) == Skip((part + file)[k..])
  {
    var t := part + file;
    assert forall i :: 0 <= i < k ==> t[i] == part[i];
    assert t[k..] == part[k..] + file;
    if k < |part| {
      SkipSpaces(t[k..], 1);
      assert t[k..][1..] == part[k + 1..] + file;
    }
  }

  lemma {:induction false} TokensFit(s: string, size: nat)
    requires 0 < size
    ensures forall k :: 0 <= k < |Tokens(s, size)| ==> |Tokens(s, size)[k]| <= size
    decreases |s|
  {
    var t := Skip(s);
    if t != [] { TokensFit(t[Min(WordLen(t), size)..], size); }
  }

  lemma {:induction false} FittingWordsAreTokens(s: string, size: nat)
    requires 0 < size && forall k :: 0 <= k < |Words(s)| ==> |Words(s)[k]| <= size
    ensures Tokens(s, size) == Words(s)
    decreases |s|
  {
    var t := Skip(s);
    if t != [] {
      var rest := t[WordLen(t)..];
      assert |Words(s)[0]| <= size;
      forall k | 0 <= k < |Words(rest)| ensures |Words(rest)[k]| <= size {
        assert Words(rest)[k] == Words(s)[k + 1];
      }
      FittingWordsAreTokens(rest, size);
    }
  }

  /** The tokens are the words exactly when every word fits the buffer. */
  lemma TokensAreWordsIff(s: string, size: nat)
    requires 0 < size
    ensures Tokens(s, size) == Words(s) <==> forall k :: 0 <= k < |Words(s)| ==> |Words(s)[k]| <= size
  {
    TokensFit(s, size);
    if forall k :: 0 <= k < |Words(s)| ==> |Words(s)[k]| <= size {
      FittingWordsAreTokens(s, size);
    }
  }

  /** One token taken from a stream whose white space was skipped, and the next skipped part. */
  lemma TokensStep(t: string, size: nat)
    requires 0 < size && t != [] && !IsSpace(t[0])
    ensures var n := Min(WordLen(t), size);
            0 < n <= |t| && Tokens(t, size) == [t[..n]] + Tokens(Skip(t[n..]), size)
  {
    var n := Min(WordLen(t), size);
    SkippedTokens(t[n..], size);
  }

  lemma SkippedTokens(s: string, size: nat)
    requires 0 < size
    ensures Tokens(Skip(s), size) == Tokens(s, size)
  {
    assert Skip(Skip(s)) == Skip(s);
  }

  /** What a read adds to the buffered part it takes from the file. */
  lemma ReadMore(was: string, now: string, at: nat, p: nat, r: nat, file: string)
    requires at <= p && p + r <= |now| == |was| && r <= |file|
    requires now[..p] == was[..p] && now[p..p + r] == file[..r]
    ensures now[..at] == was[..at] && now[at..p + r] + file[r..] == was[at..p] + file
  {
    assert now[..at] == now[..p][..at] && was[..at] == was[..p][..at];
    assert now[at..p] == now[..p][at..] && was[at..p] == was[..p][at..];
    assert now[at..p + r] == now[at..p] + now[p..p + r];
    assert file == file[..r] + file[r..];
  }

  /** What is shifted to the front and what is read behind it. */
  lemma JoinAt(s: string, k: nat, n: nat, file: string)
    requires k <= n <= |s|
    ensures s[..n] + file == s[..k] + (s[k..n] + file)
  {
  }

  /** The token from p to q of the buffer s, and what is left from `next` on. */
  lemma EndOfTokenAt(s: string, p: nat, q: nat, len: nat, next: nat, file: string)
    requires p <= q <= len <= |s| && next == if q == len then len else q + 1
    requires forall i :: p <= i < q ==> !IsSpace(s[i])
    requires if q < len then IsSpace(s[q]) else file == [] || len - p == |s|
    ensures var t := s[p..len] + file;
            var n := Min(WordLen(t), |s|);
            s[p..q] == t[..n] && Skip(s[next..len] + file) == Skip(t[n..])
  {
    var part := s[p..len];
    EndOfToken(part, file, q - p, |s|);
    assert s[next..len] == part[next - p..] && s[p..q] == part[..q - p];
  }

  lemma AfterShift(s: string, word: string, q: nat, len: nat)
    requires q <= len <= |s| && s[..q] == word && forall i :: 0 <= i < q ==> !IsSpace(word[i])
    ensures s[0..len] == s[..len] && forall i :: 0 <= i < q ==> !IsSpace(s[i])
  {
    assert forall i :: 0 <= i < q ==> s[i] == s[..q][i];
  }

  /** A word that ends with the file. */
  lemma LastWord(t: string, size: nat)
    requires |t| <= size && forall i :: 0 <= i < |t| ==> !IsSpace(t[i])
    ensures Min(WordLen(t), size) == |t| && t[..|t|] == t && t[|t|..] == []
  {
    EndOfToken(t, [], |t|, size);
    assert t + [] == t;
  }

  lemma TokenTaken(tokens: seq<string>, token: string, rest: seq<string>)
    ensures tokens + ([token] + rest) == tokens + [token] + rest
  {
  }

  // ----- the buffered reader

  class Reader {
    const buff: array<char>
    var pos: nat
    var len: nat
    var eof: bool
    var file: string      // what the operating system has not yet delivered

    ghost predicate Filled()
      reads this
    {
      && 0 < buff.Length && len <= buff.Length
      && (eof ==> file == [])
      && (len == 0 || len == buff.Length || eof)
    }

    ghost predicate Valid()
      reads this
    {
      pos <= len && Filled()
    }

    /** The part of the stream that no token was taken from. */
    ghost function Rest(): string
      reads this, buff
      requires pos <= len <= buff.Length
    {
      buff[pos..len] + file
    }

    constructor (size: nat, file: string)
      requires 0 < size
      ensures Valid() && fresh(buff) && buff.Length == size && Rest() == file
    {
      buff := new char[size];
      pos, len, eof := 0, 0, false;
      this.file := file;
    }

    /** `read(2)`: any positive number of bytes while some are left and room is left for them. */
    method Read(at: nat) returns (r: nat)
      requires at <= buff.Length
      modifies buff, `file
      ensures r == 0 <==> old(file) == [] || at == buff.Length
      ensures r <= |old(file)| && at + r <= buff.Length && file == old(file)[r..]
      ensures buff[..at] == old(buff[..at]) && buff[at..at + r] == old(file)[..r]
    {
      var most := Min(|file|, buff.Length - at);
      if most == 0 { return 0; }
      r :| 1 <= r <= most;
      forall k | 0 <= k < r { buff[at + k] := file[k]; }
      file := file[r..];
    }

    /** `read_buff`: fills the buffer from `at`, up to its end or to the end of the file. */
    method Fill(at: nat) returns (total: nat)
      requires at < buff.Length && (eof ==> file == [])
      modifies buff, `file, `eof
      ensures eof ==> file == []
      ensures at + total <= buff.Length && (at + total == buff.Length || eof)
      ensures buff[..at] == old(buff[..at]) && buff[at..at + total] + file == old(file)
      ensures total == 0 ==> file == []
    {
      if eof { return 0; }
      total := 0;
      var p := at;
      var more := true;
      while more
        invariant p == at + total && p <= buff.Length && !eof
        invariant more ==> p < buff.Length
        invariant !more ==> p == buff.Length && 0 < total
        invariant buff[..at] == old(buff[..at]) && buff[at..p] + file == old(file)
        decreases more, |file|
      {
        ghost var was, before := buff[..], file;
        var r := Read(p);
        if r == 0 {
          eof := true;
          return;
        }
        ReadMore(was, buff[..], at, p, r, before);
        p := p + r;
        total := total + r;
        more := p < buff.Length;
      }
    }

    /** The first character from `from` that is not white space, or the end of the buffered part. */
    method ScanSpaces(from: nat) returns (p: nat)
      requires from <= len <= buff.Length
      ensures from <= p <= len && (p < len ==> !IsSpace(buff[p]))
      ensures forall i :: from <= i < p ==> IsSpace(buff[i])
    {
      p := from;
      while p < len && IsSpace(buff[p])
        invariant from <= p <= len
        invariant forall i :: from <= i < p ==> IsSpace(buff[i])
      {
        p := p + 1;
      }
    }

    /** The first white space from `from`, or the end of the buffered part. */
    method ScanWord(from: nat) returns (q: nat)
      requires from <= len <= buff.Length
      ensures from <= q <= len && (q < len ==> IsSpace(buff[q]))
      ensures forall i :: from <= i < q ==> !IsSpace(buff[i])
    {
      q := from;
      while q < len && !IsSpace(buff[q])
        invariant from <= q <= len
        invariant forall i :: from <= i < q ==> !IsSpace(buff[i])
      {
        q := q + 1;
      }
    }

    /** Lines 74 and 75, and 55 and 56: a buffer without words left is filled again. */
    method Refill()
      requires Valid()
      modifies this, buff
      ensures Valid() && pos == 0
      ensures buff[..len] + file == old(file)
      ensures len == 0 ==> file == []
      ensures len == 0 || |file| < |old(file)|
    {
      pos := 0;
      len := Fill(0);
      assert buff[0..len] == buff[..len];
    }

    /** Lines 61 to 77: the next character that is not white space, or the end of the file. */
    method FindWord() returns (p: nat, found: bool)
      requires Valid() && pos < len
      modifies this, buff
      ensures Valid()
      ensures found ==> pos <= p < len && buff[p..len] + file == Skip(old(Rest())) && !IsSpace(buff[p])
      ensures !found ==> Skip(old(Rest())) == [] && Rest() == []
    {
      ghost var all := Skip(Rest());
      while true
        invariant Valid() && 0 < len
        invariant Skip(Rest()) == all
        decreases |file|
      {
        p := ScanSpaces(pos);
        SkipTo(buff[pos..len], file, p - pos);
        if p < len {
          assert buff[p..len] == buff[pos..len][p - pos..];
          return p, true;
        }
        Refill();
        assert buff[pos..len] == buff[..len];
        if len == 0 { return p, false; }
      }
    }

    /** `memmove` */
    method MoveDown(p: nat)
      requires p <= len <= buff.Length
      modifies buff
      ensures buff[..len - p] == old(buff[p..len])
    {
      forall k | 0 <= k < len - p { buff[k] := buff[p + k]; }
    }

    /** Lines 95 and 96: the unfinished word moves to the front of the buffer, which is filled up. */
    method Shift(p: nat) returns (r: nat)
      requires 0 < p < len <= buff.Length && (eof ==> file == [])
      modifies buff, `file, `eof
      ensures eof ==> file == []
      ensures len - p + r <= buff.Length && (len - p + r == buff.Length || eof)
      ensures buff[..len - p + r] + file == old(buff[p..len] + file)
      ensures r == 0 ==> file == [] && eof
      ensures buff[..len - p] == old(buff[p..len])
    {
      MoveDown(p);
      r := Fill(len - p);
      JoinAt(buff[..], len - p, len - p + r, file);
    }

    /** Lines 86 to 90: the word from p to q is returned and reading goes on past its white space. */
    method EndWord(p: nat, q: nat) returns (token: string)
      requires Filled() && p <= q <= len
      requires forall i :: p <= i < q ==> !IsSpace(buff[i])
      requires if q < len then IsSpace(buff[q]) else file == [] || len - p == buff.Length
      modifies `pos
      ensures Valid()
      ensures var t := buff[p..len] + file;
              var n := Min(WordLen(t), buff.Length);
              token == t[..n] && Skip(Rest()) == Skip(t[n..])
    {
      pos := if q == len then len else q + 1;
      token := buff[p..q];
      EndOfTokenAt(buff[..], p, q, len, pos, file);
    }

    /** Lines 95 to 105: the word from p on, which reaches the end of the buffered part, is moved to the
        front and read on; `last` when there is nothing to read. */
    method ReadOn(p: nat) returns (q: nat, last: bool)
      requires Filled() && 0 < p < len && forall i :: p <= i < len ==> !IsSpace(buff[i])
      modifies this, buff
      ensures Filled() && q == old(len) - p && q <= len && forall i :: 0 <= i < q ==> !IsSpace(buff[i])
      ensures buff[0..if last then q else len] + file == old(buff[p..len] + file)
      ensures last ==> pos == len && file == []
    {
      ghost var word := buff[p..len];
      assert forall i :: 0 <= i < len - p ==> !IsSpace(word[i]);
      var r := Shift(p);
      q := len - p;
      last := r == 0;
      if last {
        pos := len;
        AfterShift(buff[..], word, q, q);
      } else {
        len := q + r;
        pos := p;
        AfterShift(buff[..], word, q, len);
      }
    }

    /** Lines 80 to 106: the end of the word that starts at `start`, after shifting it to the front of
        the buffer and reading on if it reaches the end. */
    method TakeWord(start: nat) returns (token: string)
      requires Valid() && pos <= start < len && !IsSpace(buff[start])
      modifies this, buff
      ensures Valid()
      ensures var t := old(buff[start..len] + file);
              var n := Min(WordLen(t), buff.Length);
              token == t[..n] && Skip(Rest()) == Skip(t[n..])
    {
      ghost var t := buff[start..len] + file;
      var p, q := start, start + 1;
      while true
        invariant Filled() && p < q <= len
        invariant forall i :: p <= i < q ==> !IsSpace(buff[i])
        invariant t == buff[p..len] + file
        decreases p
      {
        q := ScanWord(q);
        if p == 0 || q < len {
          token := EndWord(p, q);
          return;
        }
        var last;
        q, last := ReadOn(p);
        if last {
          token := buff[..q];
          assert token == t;
          LastWord(t, buff.Length);
          return;
        }
        p := 0;
      }
    }

    /** `get_token`: the next token of the rest of the stream. */
    method GetToken() returns (token: Option<string>)
      requires Valid()
      modifies this, buff
      ensures Valid()
      ensures var t := Skip(old(Rest()));
              var n := Min(WordLen(t), buff.Length);
              && (token == if t == [] then None else Some(t[..n]))
              && Skip(Rest()) == Skip(t[n..])
    {
      if pos == len {
        Refill();
        assert buff[pos..len] == buff[..len];
        assert Rest() == old(Rest());
        if len == 0 { return None; }
      }
      var p, found := FindWord();
      if !found { return None; }
      var word := TakeWord(p);
      token := Some(word);
    }
  }

  /** Whatever the size of the buffer and however the reads are chopped, the tokens up to the first
      failure are those of the whole stream. */
  method AllTokens(reader: Reader) returns (tokens: seq<string>)
    requires reader.Valid()
    modifies reader, reader.buff
    ensures tokens == Tokens(old(reader.Rest()), reader.buff.Length)
    ensures reader.Valid() && Skip(reader.Rest()) == []
  {
    tokens := [];
    var more := true;
    ghost var size, all := reader.buff.Length, Tokens(reader.Rest(), reader.buff.Length);
    ghost var left := Skip(reader.Rest());
    SkippedTokens(reader.Rest(), size);
    while more
      invariant reader.Valid() && left == Skip(reader.Rest())
      invariant all == tokens + Tokens(left, size)
      invariant !more ==> left == []
      decreases more, |left|
    {
      var token := reader.GetToken();
      if token.Some? {
        TokensStep(left, size);
        left := Skip(reader.Rest());
        TokenTaken(tokens, token.value, Tokens(left, size));
        tokens := tokens + [token.value];
      } else {
        more := false;
      }
    }
  }
}

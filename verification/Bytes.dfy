/** Bytes in files: little-endian 32-bit words, and the two file operations every
    component uses, reading a range and overwriting a range.  A file is a string whose
    characters are its bytes. */
module Bytes {

  /** A C `unsigned int`. */
  type word = x: int | 0 <= x < 0x1_0000_0000

  datatype Option<+T> = None | Some(value: T)

  /** The low n bytes of w, least significant first. */
  function LowBytes(w: nat, n: nat): (b: string)
    ensures |b| == n
  {
    if n == 0 then "" else [(w % 256) as char] + LowBytes(w / 256, n - 1)
  }

  function Le32(w: word): (b: string)
    ensures |b| == 4
  {
    LowBytes(w, 4)
  }

  /** The number stored in the first n bytes of b. */
  function FromBytes(b: string, n: nat): (r: nat)
    requires |b| >= n
  {
    if n == 0 then 0 else b[0] as int % 256 + 256 * FromBytes(b[1..], n - 1)
  }

  /** The 32-bit word stored in the first four bytes of b. */
  function Word(b: string): word
    requires |b| >= 4
  {
    FromBytes(b, 4) % 0x1_0000_0000
  }

  lemma {:induction false} LowBytesRoundTrip(w: nat, n: nat, rest: string)
    requires w < Pow256(n)
    ensures FromBytes(LowBytes(w, n) + rest, n) == w
  {
    if n > 0 {
      assert (LowBytes(w, n) + rest)[1..] == LowBytes(w / 256, n - 1) + rest;
      LowBytesRoundTrip(w / 256, n - 1, rest);
    }
  }

  function Pow256(n: nat): nat
  {
    if n == 0 then 1 else 256 * Pow256(n - 1)
  }

  lemma WordRoundTrip(w: word, rest: string)
    ensures Word(Le32(w) + rest) == w
  {
    assert Pow256(4) == 0x1_0000_0000 by { assert Pow256(2) == 65536; }
    LowBytesRoundTrip(w, 4, rest);
  }

  function EncWords(ws: seq<word>): (b: string)
    ensures |b| == 4 * |ws|
  {
    if ws == [] then "" else Le32(ws[0]) + EncWords(ws[1..])
  }

  function DecWords(b: string): (ws: seq<word>)
    ensures |ws| == |b| / 4
  {
    if |b| < 4 then [] else [Word(b)] + DecWords(b[4..])
  }

  lemma {:induction false} WordsRoundTrip(ws: seq<word>)
    ensures DecWords(EncWords(ws)) == ws
  {
    if ws != [] {
      var b := EncWords(ws);
      WordRoundTrip(ws[0], EncWords(ws[1..]));
      assert b[4..] == EncWords(ws[1..]);
      WordsRoundTrip(ws[1..]);
    }
  }

  /** What `read` of n bytes at offset off returns: fewer bytes at the end of the file. */
  function ReadAt(f: string, off: nat, n: nat): (b: string)
    ensures off + n <= |f| ==> b == f[off..off + n]
    ensures |b| <= n
  {
    if off >= |f| then "" else if off + n <= |f| then f[off..off + n] else f[off..]
  }

  /** What a file holds after `write` of b at offset off inside it. */
  function WriteAt(f: string, off: nat, b: string): (g: string)
    requires off <= |f|
    ensures |g| == if off + |b| <= |f| then |f| else off + |b|
  {
    f[..off] + b + (if off + |b| <= |f| then f[off + |b|..] else "")
  }

  lemma WriteInside(pre: string, was: string, now: string, post: string)
    requires |was| == |now|
    ensures WriteAt(pre + was + post, |pre|, now) == pre + now + post
  {
    var f := pre + was + post;
    assert f[..|pre|] == pre;
    assert f[|pre| + |now|..] == post;
  }

  lemma ReadInside(pre: string, mid: string, post: string)
    ensures ReadAt(pre + mid + post, |pre|, |mid|) == mid
  {
    var f := pre + mid + post;
    if |mid| > 0 {
      assert f[|pre|..|pre| + |mid|] == mid;
    }
  }

  lemma SplitSeq<T>(s: seq<T>, i: nat)
    requires i < |s|
    ensures s == (s[..i] + [s[i]]) + s[i + 1..]
    ensures s[..i + 1] == s[..i] + [s[i]]
  {
  }

  lemma NextSlice(s: string, from: nat, pos: nat, next: nat)
    requires from <= pos <= next <= |s|
    ensures s[from..pos] + s[pos..next] == s[from..next]
  {
  }

  // ----- upper case

  function ToUpper(c: char): char { if 'a' <= c <= 'z' then (c as int - 32) as char else c }

  /** A string in upper case. */
  function Upper(s: string): (r: string)
    ensures |r| == |s|
  {
    if s == "" then "" else [ToUpper(s[0])] + Upper(s[1..])
  }
}

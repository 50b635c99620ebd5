/** The two string operations the components apply to user input before
    using it: JavaScript's `String.prototype.trim` (only ever compared with
    the empty string) and `toLowerCase`. */
module Text {

  /** The code points `trim` strips: ECMAScript WhiteSpace (tab, vertical tab,
      form feed, space, no-break space, byte-order mark and every `Zs`
      space separator) and LineTerminator (line feed, carriage return, line
      and paragraph separator). */
  predicate IsWhiteSpace(c: char) {
    c == '\t' || c == '\U{000B}' || c == '\U{000C}' || c == ' ' || c == '\U{00A0}' || c == '\U{FEFF}'
    || c == '\U{1680}' || ('\U{2000}' <= c <= '\U{200A}') || c == '\U{202F}' || c == '\U{205F}' || c == '\U{3000}'
    || c == '\n' || c == '\r' || c == '\U{2028}' || c == '\U{2029}'
  }

  /** `s.trimStart()` */
  function TrimStart(s: string): (r: string)
    ensures |r| <= |s| && r == s[|s| - |r|..]
    ensures r == [] || !IsWhiteSpace(r[0])
  {
    if s != [] && IsWhiteSpace(s[0]) then TrimStart(s[1..]) else s
  }

  /** `s.trimEnd()` */
  function TrimEnd(s: string): (r: string)
    ensures |r| <= |s| && r == s[..|r|]
    ensures r == [] || !IsWhiteSpace(r[|r| - 1])
  {
    if s != [] && IsWhiteSpace(s[|s| - 1]) then TrimEnd(s[..|s| - 1]) else s
  }

  /** `s.trim()` */
  function Trim(s: string): string {
    TrimEnd(TrimStart(s))
  }

  /** The components' guard `input.trim() !== ""` fails exactly on inputs
      made only of white space, the empty string included. */
  predicate IsBlank(s: string) {
    forall i :: 0 <= i < |s| ==> IsWhiteSpace(s[i])
  }

  lemma {:induction false} TrimStartOfBlank(s: string)
    ensures IsBlank(s) <==> TrimStart(s) == []
  {
    if s == [] {
    } else if IsWhiteSpace(s[0]) {
      TrimStartOfBlank(s[1..]);
      if IsBlank(s[1..]) {
        forall i | 0 <= i < |s| ensures IsWhiteSpace(s[i]) {
          if i > 0 { assert s[i] == s[1..][i - 1]; }
        }
      } else {
        var i :| 0 <= i < |s[1..]| && !IsWhiteSpace(s[1..][i]);
        assert s[i + 1] == s[1..][i];
      }
    } else {
      assert !IsWhiteSpace(s[0]);
    }
  }

  lemma {:induction false} TrimEndOfNonEmpty(s: string)
    requires s != [] && !IsWhiteSpace(s[0])
    ensures TrimEnd(s) != []
  {
    if IsWhiteSpace(s[|s| - 1]) {
      TrimEndOfNonEmpty(s[..|s| - 1]);
    }
  }

  /** `s.trim() === ""` exactly when every character of `s` is white space. */
  lemma TrimIsEmptyIffBlank(s: string)
    ensures Trim(s) == [] <==> IsBlank(s)
  {
    TrimStartOfBlank(s);
    var t := TrimStart(s);
    if t != [] {
      TrimEndOfNonEmpty(t);
    }
  }

  /** The stack's and the queue's add handler: the untrimmed input is put
      at the end of the list unless `input.trim() === ""`. */
  function AppendUnlessBlank(items: seq<string>, input: string): (r: seq<string>)
    ensures IsBlank(input) ==> r == items
    ensures !IsBlank(input) ==> |r| == |items| + 1 && r[..|items|] == items && r[|items|] == input
  {
    TrimIsEmptyIffBlank(input);
    if Trim(input) != "" then items + [input] else items
  }

  /** `toLowerCase` on one code point, for the ASCII letters. */
  function LowerChar(c: char): (r: char)
    ensures 'A' <= c <= 'Z' ==> 'a' <= r <= 'z'
    ensures !('A' <= c <= 'Z') ==> r == c
  {
    if 'A' <= c <= 'Z' then (c as int + 32) as char else c
  }

  /** `s.toLowerCase()`: same length, each character lowered, no upper-case
      ASCII letter left. */
  function ToLower(s: string): (r: string)
    ensures |r| == |s|
    ensures forall i :: 0 <= i < |s| ==> r[i] == LowerChar(s[i])
    ensures forall i :: 0 <= i < |r| ==> !('A' <= r[i] <= 'Z')
  {
    seq(|s|, i requires 0 <= i < |s| => LowerChar(s[i]))
  }

  /** Lowering twice is lowering once. */
  lemma ToLowerIdempotent(s: string)
    ensures ToLower(ToLower(s)) == ToLower(s)
  {
  }
}

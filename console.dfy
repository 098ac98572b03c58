/**
 * What the login code reads from the console. Both `register_user` and
 * `login_user` read a username and a password with `scanf("%49s", buf)`
 * into 50-byte buffers; the console is modelled as the byte stream still
 * unread, and each read returns the word it stored and the rest.
 */
module Console {
  import opened Wrappers
  import opened CLib

  /** The field width of the `%49s` conversions: one less than the 50-byte
      buffers, so that the terminating NUL fits. */
  const MaxWord: nat := 49

  /** `isspace` in the C locale: space, tab, newline, vertical tab, form feed,
      carriage return. */
  predicate IsSpace(b: byte) { b == 32 || 9 <= b <= 13 }

  /** What a successful `%49s` conversion can store: one to 49 bytes, none of
      them whitespace. */
  predicate IsWord(w: seq<byte>)
  {
    1 <= |w| <= MaxWord && forall i :: 0 <= i < |w| ==> !IsSpace(w[i])
  }

  /** The input after the leading whitespace `%s` skips. */
  function SkipSpace(s: seq<byte>): (r: seq<byte>)
    ensures |r| <= |s| && r == s[|s| - |r|..]
    ensures forall i :: 0 <= i < |s| - |r| ==> IsSpace(s[i])
    ensures r == [] || !IsSpace(r[0])
  {
    if s != [] && IsSpace(s[0]) then SkipSpace(s[1..]) else s
  }

  /** The longest run of at most max non-whitespace bytes at the start of s,
      and what follows it. */
  function TakeWord(s: seq<byte>, max: nat): (r: (seq<byte>, seq<byte>))
    ensures r.0 + r.1 == s
    ensures |r.0| <= max
    ensures forall i :: 0 <= i < |r.0| ==> !IsSpace(r.0[i])
    ensures |r.0| == max || r.1 == [] || IsSpace(r.1[0])
  {
    if max == 0 || s == [] || IsSpace(s[0]) then ([], s)
    else
      var (w, rest) := TakeWord(s[1..], max - 1);
      assert [s[0]] + w + rest == [s[0]] + (w + rest);
      ([s[0]] + w, rest)
  }

  /** `scanf("%49s", buf)`: the word it stores and the unread input, or None
      when the input holds nothing but whitespace (scanf returns EOF and the
      buffer is left as it was). */
  function ScanWord(input: seq<byte>): (r: Option<(seq<byte>, seq<byte>)>)
    ensures r.None? <==> forall i :: 0 <= i < |input| ==> IsSpace(input[i])
    ensures r.Some? ==> IsWord(r.value.0) && |r.value.1| < |input|
  {
    var s := SkipSpace(input);
    if s == [] then None
    else
      var (w, rest) := TakeWord(s, MaxWord);
      Some((w, rest))
  }

  /** How `%49s` splits the input: skipped whitespace, the stored word, and
      the unread rest, which starts with whitespace unless the word took all
      49 bytes or the input ended. */
  lemma ScanWordSplits(input: seq<byte>)
    requires ScanWord(input).Some?
    ensures var (w, rest) := ScanWord(input).value;
            var k := |input| - |w| - |rest|;
            0 <= k && input == input[..k] + w + rest &&
            (forall i :: 0 <= i < k ==> IsSpace(input[i])) &&
            (|w| == MaxWord || rest == [] || IsSpace(rest[0]))
  {
    var s := SkipSpace(input);
    var (w, rest) := TakeWord(s, MaxWord);
    assert input == input[..|input| - |s|] + s;
  }

  /** The two buffers one attempt fills: the username word, then the
      password word. */
  datatype Entered = Entered(username: seq<byte>, password: seq<byte>)

  /** The two `scanf` calls at the head of `register_user` and `login_user`:
      the words read and the unread input, or None when the input ends before
      both are read. */
  function ReadEntered(console: seq<byte>): (r: Option<(Entered, seq<byte>)>)
    ensures r.Some? ==> IsWord(r.value.0.username) && IsWord(r.value.0.password)
    ensures r.Some? ==> |r.value.1| < |console|
  {
    match ScanWord(console)
    case None => None
    case Some((u, rest)) =>
      match ScanWord(rest)
      case None => None
      case Some((p, rest')) => Some((Entered(u, p), rest'))
  }

  /** The complete attempts the console holds, in the order they are read:
      each a username word followed by a password word. Input after the last
      complete pair is never used. */
  function Attempts(console: seq<byte>): (r: seq<Entered>)
    ensures r == [] <==> ReadEntered(console).None?
    decreases |console|
  {
    var read := ReadEntered(console);
    if read.None? then [] else [read.value.0] + Attempts(read.value.1)
  }

  /** Every attempt holds what `%49s` can store: one to 49 non-whitespace
      bytes for the username and for the password. */
  lemma {:induction false} AttemptsAreWords(console: seq<byte>)
    ensures forall i :: 0 <= i < |Attempts(console)| ==>
              IsWord(Attempts(console)[i].username) && IsWord(Attempts(console)[i].password)
    decreases |console|
  {
    var read := ReadEntered(console);
    if read.Some? {
      var (e, rest) := read.value;
      AttemptsAreWords(rest);
      assert Attempts(console) == [e] + Attempts(rest);
      forall i | 0 <= i < |Attempts(console)|
        ensures IsWord(Attempts(console)[i].username) && IsWord(Attempts(console)[i].password)
      {
        if i > 0 {
          assert Attempts(console)[i] == Attempts(rest)[i - 1];
        }
      }
    }
  }
}

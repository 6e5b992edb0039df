/** `http.Header` and its case-insensitive `Get`. */
module NetHttp {
  import opened Wrappers
  import opened GoStrings

  /** A response's header map; `None` is a nil map, which `reflect.DeepEqual` tells apart from
      an empty one. */
  type Header = Option<map<string, seq<string>>>

  /** The bytes allowed in a header field name. */
  predicate IsTokenChar(c: char) {
    'a' <= c <= 'z' || 'A' <= c <= 'Z' || '0' <= c <= '9'
    || c in "!#$%&'*+-.^_`|~"
  }

  predicate IsToken(s: string) {
    forall i :: 0 <= i < |s| ==> IsTokenChar(s[i])
  }

  /** `textproto.CanonicalMIMEHeaderKey`: the first letter and every letter after a `-` in upper
      case, the others in lower case; a name with a byte outside the token set is kept as is. */
  function CanonicalKey(s: string): (r: string)
    ensures |r| == |s|
  {
    if !IsToken(s) then s
    else seq(|s|, i requires 0 <= i < |s| => CanonicalAt(s, i))
  }

  /** The byte at position `i` of the canonical key of a token. */
  function CanonicalAt(s: string, i: nat): char
    requires i < |s|
  {
    if i == 0 || s[i - 1] == '-' then UpperChar(s[i]) else LowerChar(s[i])
  }

  /** `Header.Get`: the first value stored under the canonical form of `name`, or "". */
  function HeaderGet(h: Header, name: string): string {
    match h
    case None => ""
    case Some(m) =>
      var k := CanonicalKey(name);
      if k in m && |m[k]| > 0 then m[k][0] else ""
  }

  /** Two bytes with the same lower-case form have the same upper-case form, and are both or
      neither a `-`. */
  lemma SameFold(x: char, y: char)
    requires LowerChar(x) == LowerChar(y)
    ensures UpperChar(x) == UpperChar(y) && (x == '-' <==> y == '-')
  {
  }

  /** Names with the same lower-case form agree, position by position, in lower case. */
  lemma SameLowerCase(a: string, b: string)
    requires ToLower(a) == ToLower(b)
    ensures |a| == |b| && forall i :: 0 <= i < |a| ==> LowerChar(a[i]) == LowerChar(b[i])
  {
    assert |a| == |ToLower(a)| == |ToLower(b)| == |b|;
    forall i | 0 <= i < |a| ensures LowerChar(a[i]) == LowerChar(b[i]) {
      assert ToLower(a)[i] == ToLower(b)[i];
    }
  }

  /** Header names are looked up without regard to ASCII case. */
  lemma GetIgnoresCase(h: Header, a: string, b: string)
    requires IsToken(a) && IsToken(b) && ToLower(a) == ToLower(b)
    ensures HeaderGet(h, a) == HeaderGet(h, b)
  {
    SameLowerCase(a, b);
    forall i | 0 <= i < |a| ensures CanonicalAt(a, i) == CanonicalAt(b, i) {
      SameFold(a[i], b[i]);
      if i > 0 {
        SameFold(a[i - 1], b[i - 1]);
      }
    }
    assert CanonicalKey(a) == CanonicalKey(b);
  }
}

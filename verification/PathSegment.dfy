/** Percent-encoding of path segments, and the repository paths built from them. */
module PathSegment {
  import opened Wrappers
  import opened Text

  /** A UTF-8 byte. */
  newtype byte = b: int | 0 <= b < 256

  /** The unreserved characters of RFC 3986 section 2.3. */
  predicate Unreserved(c: char) {
    || 'a' <= c <= 'z' || 'A' <= c <= 'Z' || '0' <= c <= '9'
    || c == '-' || c == '_' || c == '.' || c == '~'
  }

  /** By the code points of that section: ALPHA, DIGIT and four marks, and no other character. */
  lemma UnreservedExactly(c: char)
    ensures var n := c as int;
      Unreserved(c) <==> 0x41 <= n <= 0x5A || 0x61 <= n <= 0x7A || 0x30 <= n <= 0x39 || n in {0x2D, 0x2E, 0x5F, 0x7E}
  {
  }

  predicate Safe(b: byte) {
    Unreserved(b as char)
  }

  function HexDigit(n: int): (c: char)
    requires 0 <= n < 16
    ensures '0' <= c <= '9' || 'A' <= c <= 'F'
  {
    if n < 10 then ('0' as int + n) as char else ('A' as int + (n - 10)) as char
  }

  /** `%{b:02X}` */
  function Triplet(b: byte): string {
    ['%', HexDigit(b as int / 16), HexDigit(b as int % 16)]
  }

  function EncodeByte(b: byte): string {
    if Safe(b) then [b as char] else Triplet(b)
  }

  function Encode(s: seq<byte>): string {
    if s == [] then [] else EncodeByte(s[0]) + Encode(s[1..])
  }

  lemma {:induction false} EncodeSnoc(s: seq<byte>, b: byte)
    ensures Encode(s + [b]) == Encode(s) + EncodeByte(b)
  {
    if s == [] {
      assert [] + [b] == [b] && [b][1..] == [];
    } else {
      assert (s + [b])[1..] == s[1..] + [b];
      EncodeSnoc(s[1..], b);
    }
  }

  method PathSegment(s: seq<byte>) returns (out: string)
    ensures out == Encode(s)
    ensures Decode(out) == Some(s)
    ensures Legal(out) && '/' !in out
  {
    out := [];
    for i := 0 to |s|
      invariant out == Encode(s[..i])
    {
      EncodeSnoc(s[..i], s[i]);
      assert s[..i + 1] == s[..i] + [s[i]];
      if Safe(s[i]) {
        out := out + [s[i] as char];
      } else {
        out := out + Triplet(s[i]);
      }
    }
    assert s[..|s|] == s;
    DecodeEncode(s);
    EncodeLegal(s);
    LegalHasNoSlash(out);
  }

  /** Nothing is encoded that need not be: an unreserved byte is its own character, every other one a triplet. */
  lemma EncodesOnlyReserved(b: byte)
    ensures if Unreserved(b as char) then Encode([b]) == [b as char] else |Encode([b])| == 3 && Encode([b])[0] == '%'
  {
    assert [b][1..] == [] && EncodeByte(b) + [] == EncodeByte(b);
  }

  lemma {:induction false} EncodesInOrder(a: seq<byte>, b: seq<byte>)
    ensures Encode(a + b) == Encode(a) + Encode(b)
  {
    if a == [] {
      assert a + b == b;
    } else {
      assert (a + b)[1..] == a[1..] + b;
      EncodesInOrder(a[1..], b);
    }
  }

  // --- decoding, RFC 3986 section 2.1 -------------------------------------------

  function HexValue(c: char): Option<int> {
    if '0' <= c <= '9' then Some(c as int - '0' as int)
    else if 'A' <= c <= 'F' then Some(c as int - 'A' as int + 10)
    else if 'a' <= c <= 'f' then Some(c as int - 'a' as int + 10)
    else None
  }

  /** Hexadecimal digits count the same in either case. */
  lemma HexInEitherCase(c: char)
    ensures HexValue(UpperChar(c)) == HexValue(c)
    ensures HexValue(c).Some? <==> UpperChar(c) in "0123456789ABCDEF"
  {
    if '0' <= c <= '9' {
      assert "0123456789ABCDEF"[c as int - '0' as int] == c by {
        var n := c as int - '0' as int;
        assert n == 0 || n == 1 || n == 2 || n == 3 || n == 4 || n == 5 || n == 6 || n == 7 || n == 8 || n == 9;
      }
    }
  }

  function TripletValue(h: char, l: char): (r: Option<byte>)
  {
    match (HexValue(h), HexValue(l))
    case (Some(a), Some(b)) => if 0 <= a * 16 + b < 256 then Some((a * 16 + b) as byte) else None
    case _ => None
  }

  /** Percent-decoding of text that is ASCII outside its triplets. */
  function Decode(s: string): Option<seq<byte>> {
    if s == [] then Some([])
    else if s[0] == '%' then
      if |s| < 3 then None
      else
        match (TripletValue(s[1], s[2]), Decode(s[3..]))
        case (Some(b), Some(rest)) => Some([b] + rest)
        case _ => None
    else if s[0] as int >= 128 then None
    else
      match Decode(s[1..])
      case Some(rest) => Some([s[0] as int as byte] + rest)
      case None => None
  }

  /** Unreserved characters and upper-case percent triplets, nothing else. */
  predicate Legal(s: string) {
    s == []
    || (Unreserved(s[0]) && Legal(s[1..]))
    || (|s| >= 3 && s[0] == '%' && IsHex(s[1]) && IsHex(s[2]) && Legal(s[3..]))
  }

  predicate IsHex(c: char) {
    '0' <= c <= '9' || 'A' <= c <= 'F'
  }

  lemma TripletDecodes(b: byte)
    ensures TripletValue(HexDigit(b as int / 16), HexDigit(b as int % 16)) == Some(b)
  {
    assert b as int == (b as int / 16) * 16 + b as int % 16;
  }

  lemma DecodeStep(b: byte, rest: string)
    requires Decode(rest).Some?
    ensures Decode(EncodeByte(b) + rest) == Some([b] + Decode(rest).value)
  {
    var s := EncodeByte(b) + rest;
    if Safe(b) {
      assert s[1..] == rest;
    } else {
      assert s[3..] == rest;
      TripletDecodes(b);
    }
  }

  lemma {:induction false} DecodeEncode(s: seq<byte>)
    ensures Decode(Encode(s)) == Some(s)
  {
    if s != [] {
      DecodeEncode(s[1..]);
      DecodeStep(s[0], Encode(s[1..]));
      assert s == [s[0]] + s[1..];
    }
  }

  lemma {:induction false} EncodeLegal(s: seq<byte>)
    ensures Legal(Encode(s))
  {
    if s != [] {
      EncodeLegal(s[1..]);
      var out, rest := Encode(s), Encode(s[1..]);
      if Safe(s[0]) {
        assert out[1..] == rest;
      } else {
        assert out[3..] == rest;
      }
    }
  }

  lemma {:induction false} LegalHasNoSlash(s: string)
    requires Legal(s)
    ensures '/' !in s
  {
    if s != [] {
      if Unreserved(s[0]) && Legal(s[1..]) {
        LegalHasNoSlash(s[1..]);
        assert s == [s[0]] + s[1..];
      } else {
        LegalHasNoSlash(s[3..]);
        assert s == [s[0], s[1], s[2]] + s[3..];
      }
    }
  }

  // --- paths built from segments ------------------------------------------------

  /** `/repos/{owner}/{repo}/collaborators/{login}/permission` */
  function PermissionPath(owner: seq<byte>, repo: seq<byte>, login: seq<byte>): string {
    "/repos/" + Encode(owner) + "/" + Encode(repo) + "/collaborators/" + Encode(login) + "/permission"
  }

  lemma PathAsJoin(owner: seq<byte>, repo: seq<byte>, login: seq<byte>)
    ensures PermissionPath(owner, repo, login) == Join(PathParts(owner, repo, login), "/")
  {
    var parts := PathParts(owner, repo, login);
    var j6 := Join(parts[6..], "/");
    assert parts[6..] == ["permission"];
    var j5 := Join(parts[5..], "/");
    assert j5 == Encode(login) + ("/" + "permission") by { assert parts[5..][1..] == parts[6..]; }
    var j4 := Join(parts[4..], "/");
    assert j4 == "collaborators" + ("/" + j5) by { assert parts[4..][1..] == parts[5..]; }
    var j3 := Join(parts[3..], "/");
    assert j3 == Encode(repo) + ("/" + j4) by { assert parts[3..][1..] == parts[4..]; }
    var j2 := Join(parts[2..], "/");
    assert j2 == Encode(owner) + ("/" + j3) by { assert parts[2..][1..] == parts[3..]; }
    var j1 := Join(parts[1..], "/");
    assert j1 == "repos" + ("/" + j2) by { assert parts[1..][1..] == parts[2..]; }
    assert Join(parts, "/") == "" + ("/" + j1);
    RegroupPath(Encode(owner), Encode(repo), Encode(login));
  }

  lemma RegroupPath(o: string, r: string, l: string)
    ensures "/repos/" + o + "/" + r + "/collaborators/" + l + "/permission"
      == "" + ("/" + ("repos" + ("/" + (o + ("/" + (r + ("/" + ("collaborators" + ("/" + (l + ("/" + "permission")))))))))))
  {
  }

  function PathParts(owner: seq<byte>, repo: seq<byte>, login: seq<byte>): seq<string> {
    ["", "repos", Encode(owner), Encode(repo), "collaborators", Encode(login), "permission"]
  }

  lemma EncodedHasNoSlash(s: seq<byte>)
    ensures '/' !in Encode(s)
  {
    EncodeLegal(s);
    LegalHasNoSlash(Encode(s));
  }

  /** Splitting the built path on `/` gives back its seven parts, whatever the names hold. */
  lemma PathSplits(owner: seq<byte>, repo: seq<byte>, login: seq<byte>)
    ensures Split(PermissionPath(owner, repo, login), '/') == PathParts(owner, repo, login)
    ensures Decode(Split(PermissionPath(owner, repo, login), '/')[2]) == Some(owner)
    ensures Decode(Split(PermissionPath(owner, repo, login), '/')[3]) == Some(repo)
    ensures Decode(Split(PermissionPath(owner, repo, login), '/')[5]) == Some(login)
  {
    hide Encode, Decode, Split, PermissionPath;
    EncodedHasNoSlash(owner);
    EncodedHasNoSlash(repo);
    EncodedHasNoSlash(login);
    PathAsJoin(owner, repo, login);
    SplitJoin(PathParts(owner, repo, login), '/');
    DecodeEncode(owner);
    DecodeEncode(repo);
    DecodeEncode(login);
  }

  /** Two requests address the same path only when they name the same owner, repository and login. */
  lemma PathIdentifies(owner: seq<byte>, repo: seq<byte>, login: seq<byte>,
                       owner': seq<byte>, repo': seq<byte>, login': seq<byte>)
    requires PermissionPath(owner, repo, login) == PermissionPath(owner', repo', login')
    ensures owner == owner' && repo == repo' && login == login'
  {
    PathSplits(owner, repo, login);
    PathSplits(owner', repo', login');
  }
}

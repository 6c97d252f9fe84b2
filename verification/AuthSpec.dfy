/** Username/password authentication as a verdict on the bytes received (section 2 of RFC 1929). */
module AuthSpec {
  import opened Common

  datatype Verdict =
    | NeedMore
    | BadVersion                     // after two bytes
    | NoPassword                     // a password of length zero
    | Denied(size: nat)
    | Accepted(size: nat)

  /** VER, ULEN, UNAME, PLEN, PASSWD; what the machine is sure of after the bytes `s`. */
  function Judge(s: Bytes, username: Bytes, password: Bytes): Verdict {
    if |s| < 2 then NeedMore
    else if s[0] != 1 then BadVersion
    else
      var ul: nat := s[1];
      if |s| < 3 + ul then NeedMore
      else
        var pl: nat := s[2 + ul];
        if pl == 0 then NoPassword
        else if |s| < 3 + ul + pl then NeedMore
        else if s[2..2 + ul] == username && s[3 + ul..3 + ul + pl] == password then Accepted(3 + ul + pl)
        else Denied(3 + ul + pl)
  }

  /** The request of a client. */
  function Request(u: Bytes, p: Bytes): Bytes
    requires |u| < 256 && |p| < 256
  {
    [1, |u|] + u + [|p|] + p
  }

  lemma JudgeStable(s: Bytes, more: Bytes, username: Bytes, password: Bytes)
    requires !Judge(s, username, password).NeedMore?
    ensures Judge(s + more, username, password) == Judge(s, username, password)
  {
    var t := s + more;
    assert t[0] == s[0] && t[1] == s[1];
    if s[0] == 1 {
      var ul: nat := s[1];
      assert t[2 + ul] == s[2 + ul];
      var pl: nat := s[2 + ul];
      if pl != 0 {
        assert t[2..2 + ul] == s[2..2 + ul] && t[3 + ul..3 + ul + pl] == s[3 + ul..3 + ul + pl];
      }
    }
  }

  /** The verdict on a well-formed request: right exactly if both match, and never without a password. */
  lemma JudgeRequest(u: Bytes, p: Bytes, rest: Bytes, username: Bytes, password: Bytes)
    requires |u| < 256 && |p| < 256
    ensures Judge(Request(u, p) + rest, username, password) ==
              if p == [] then NoPassword
              else if u == username && p == password then Accepted(3 + |u| + |p|)
              else Denied(3 + |u| + |p|)
    ensures |Request(u, p)| == 3 + |u| + |p|
  {
    var s := Request(u, p) + rest;
    assert s[0] == 1 && s[1] == |u|;
    assert s[2..2 + |u|] == u;
    assert s[2 + |u|] == |p|;
    assert s[3 + |u|..3 + |u| + |p|] == p;
  }

  /** Nothing but the right request is accepted, and nothing but the version byte 1 is read on. */
  lemma AcceptedMeans(s: Bytes, username: Bytes, password: Bytes)
    requires |username| < 256 && 0 < |password| < 256
    ensures Judge(s, username, password).Accepted? <==> [1, |username|] + username + [|password|] + password <= s
    ensures Judge(s, username, password).Accepted? ==> Judge(s, username, password).size == 3 + |username| + |password|
    ensures Judge(s, username, password).BadVersion? <==> |s| >= 2 && s[0] != 1
  {
    var r := Request(username, password);
    if r <= s {
      assert s == r + s[|r|..];
      JudgeRequest(username, password, s[|r|..], username, password);
    }
    if Judge(s, username, password).Accepted? {
      var ul: nat := s[1];
      var pl: nat := s[2 + ul];
      assert s[..3 + ul + pl] == [s[0], s[1]] + s[2..2 + ul] + [s[2 + ul]] + s[3 + ul..3 + ul + pl];
    }
  }

  /**
   Whoever reads a stream that starts with a request, in whatever pieces, accepts it exactly if it
   carries the right name and the right password, and has then read exactly the request.
   */
  lemma AcceptedIff(got: Bytes, rest: Bytes, u: Bytes, p: Bytes, tail: Bytes, username: Bytes, password: Bytes)
    requires |u| < 256 && 0 < |p| < 256
    requires got + rest == Request(u, p) + tail
    requires var v := Judge(got, username, password); (v.Accepted? || v.Denied?) && v.size == |got|
    ensures Judge(got, username, password).Accepted? <==> u == username && p == password
    ensures got == Request(u, p) && rest == tail
  {
    JudgeRequest(u, p, tail, username, password);
    JudgeStable(got, rest, username, password);
    assert got == (got + rest)[..|got|] && rest == (got + rest)[|got|..];
    assert Request(u, p) == (Request(u, p) + tail)[..|got|] && tail == (Request(u, p) + tail)[|got|..];
  }

  /** Before the request is complete there is no verdict, and the stream has more. */
  lemma UndecidedHasMore(got: Bytes, rest: Bytes, u: Bytes, p: Bytes, tail: Bytes, username: Bytes, password: Bytes)
    requires |u| < 256 && 0 < |p| < 256
    requires got + rest == Request(u, p) + tail
    ensures Judge(got, username, password).NeedMore? ==> rest != []
    ensures !Judge(got, username, password).BadVersion? && !Judge(got, username, password).NoPassword?
  {
    JudgeRequest(u, p, tail, username, password);
    if Judge(got, username, password).NeedMore? {
      assert got + [] == got;
    } else {
      JudgeStable(got, rest, username, password);
    }
  }
}

/** The authentication step of the SOCKS5 handshake (src/net/socks/auth.rs). */
module Auth {
  import opened Common
  import Fallback
  import opened AuthSpec

  const METHOD_PASSWORD: Bytes := [5, 2]
  const METHOD_NONE: Bytes := [5, 0]

  class S5Authenticate {
    const stream: Fallback.Fallback
    const standard: bool
    const username: Bytes
    const password: Bytes

    var offset: nat                  // of the reply, when no authentication is asked for
    var rpos: nat
    var rbuf: array?<byte>
    var wpos: nat
    var wbuf: Option<Bytes>
    var init: bool
    var good: bool
    var cmpUser: Option<Bytes>       // the name, and the length of the password behind it
    var cmpPass: Option<Bytes>

    ghost var got: Bytes             // bytes received
    ghost var said: Bytes            // bytes sent
    ghost const before: Bytes        // what the stream had sent when this machine was made

    constructor (stream: Fallback.Fallback, credentials: Option<(Bytes, Bytes)>)
      requires !stream.strict && stream.Valid()
      ensures Valid() && Idle() && before == stream.target.sent && this.stream == stream && standard == credentials.Some?
      ensures credentials.Some? ==> username == credentials.value.0 && password == credentials.value.1
    {
      this.stream, standard := stream, credentials.Some?;
      username := if credentials.Some? then credentials.value.0 else [];
      password := if credentials.Some? then credentials.value.1 else [];
      offset, rpos, rbuf, wpos, wbuf := 0, 0, null, 0, Some(METHOD_PASSWORD);
      init, good, cmpUser, cmpPass := false, false, None, None;
      got, said, before := [], [], stream.target.sent;
    }

    /** Nothing has happened yet. */
    ghost predicate Idle()
      reads this
    {
      got == [] && said == [] && rbuf == null && if standard then Greeting() else offset == 0
    }

    lemma IdleIsValid()
      requires Idle() && stream.Valid() && !stream.strict && stream.target.sent == before
      ensures Valid()
    {
      assert before + said == before;
    }

    /** Once something was written the stream keeps nothing for a replay. */
    ghost predicate Quiet()
      reads stream`backedBuf, stream`markedBuf
    {
      stream.backedBuf == null && stream.markedBuf == null
    }

    ghost predicate Greeting()
      reads this
    {
      && wbuf == Some(METHOD_PASSWORD) && wpos <= 2 && rbuf == null && rpos == 0
      && !init && !good && cmpUser.None? && cmpPass.None?
      && got == [] && said == METHOD_PASSWORD[..wpos]
    }

    ghost predicate Reading()
      reads this, rbuf
    {
      && wbuf == None && rbuf != null && rpos <= rbuf.Length
      && !good && cmpPass.None? && said == METHOD_PASSWORD
      && if cmpUser.Some? then
           var u := cmpUser.value;
           && init && 1 <= |u| <= 256 && rbuf.Length == u[|u| - 1]
           && got == [1, |u| - 1] + u + rbuf[..rpos]
         else if init then
           1 <= rbuf.Length <= 256 && got == [1, rbuf.Length - 1] + rbuf[..rpos]
         else
           rbuf.Length == 2 && got == rbuf[..rpos]
    }

    ghost predicate Received()
      reads this
    {
      && wbuf == None && rbuf == null && !good && said == METHOD_PASSWORD
      && cmpUser.Some? && cmpPass.Some? && 1 <= |cmpUser.value| <= 256 && 0 < |cmpPass.value|
      && |cmpPass.value| == cmpUser.value[|cmpUser.value| - 1]
      && got == [1, |cmpUser.value| - 1] + cmpUser.value + cmpPass.value
    }

    ghost predicate Replying()
      reads this
    {
      && wbuf == Some([1, if good then 0 else 1]) && wpos <= 2 && rbuf == null
      && cmpUser.Some? && cmpPass.Some?
      && said == METHOD_PASSWORD + wbuf.value[..wpos]
      && Judge(got, username, password) == (if good then Accepted(|got|) else Denied(|got|))
    }

    ghost predicate Valid()
      reads this, rbuf, stream, stream.backedBuf, stream.markedBuf, stream.target`sent
    {
      && !stream.strict && stream.Valid() && OnlySaid()
      && if !standard then
           offset < 2 && got == [] && said == METHOD_NONE[..offset]
         else
           && (Greeting() || (Quiet() && (Reading() || Replying())))
           && (if wbuf.Some? then wpos < 2 else rbuf != null && (rbuf.Length > 0 ==> rpos < rbuf.Length))
    }

    /** What went out since this machine was made is what it said. */
    ghost predicate OnlySaid()
      reads this`said, stream.target`sent
    {
      stream.target.sent == before + said
    }

    /** What came in is what was got, and the rest of the stream follows it. */
    twostate predicate OnlyGot()
      reads this`got, stream.target`rest
    {
      old(got) <= got && got + stream.target.rest == old(got + stream.target.rest)
    }

    /** One write; the stream forgets its replay buffers even if it does not take a byte. */
    method Say(data: Bytes) returns (r: Poll<nat>)
      requires !stream.strict && stream.Valid() && OnlySaid()
      modifies this`said, stream`backedBuf, stream`markedBuf, stream.target`sent, stream.target`stalls
      ensures stream.target.stalls ==
                old(stream.target.stalls) + if r.Ready? && r.result.Ok? && (r.result.value > 0 || data == []) then 0 else 1
      ensures stream.Valid() && Quiet()
      ensures r.Ready? && r.result.Ok? ==>
                && r.result.value <= |data| && said == old(said) + data[..r.result.value]
      ensures OnlySaid()
      ensures !(r.Ready? && r.result.Ok?) ==> said == old(said)
      ensures r.Ready? && r.result.Err? ==> r.result.error == Io
    {
      r := stream.PollWrite(data);
      assert stream.View().backed == None && stream.View().marked == None;
      if r.Ready? && r.result.Ok? {
        Assoc(before, said, data[..r.result.value]);
        said := said + data[..r.result.value];
      }
    }

    method PollSkip() returns (r: Poll<()>)
      requires Valid() && !standard
      modifies this`offset, this`said, stream`backedBuf, stream`markedBuf, stream.target`sent, stream.target`stalls
      ensures old(stream.target.stalls) <= stream.target.stalls
      ensures !(r.Ready? && r.result.Ok?) ==> stream.target.stalls > old(stream.target.stalls)
      ensures stream.Valid() && Quiet()
      ensures OnlySaid()
      ensures r.Pending? ==> Valid()
      ensures r.Ready? && r.result.Ok? ==> got == [] && said == [5, 0]
      ensures r.Ready? && r.result.Err? ==> got == [] && r.result.error in {Io, UnexpectedEof}
    {
      while true
        invariant Valid() && OnlySaid() && stream.target.stalls == old(stream.target.stalls)
        decreases 2 - offset
      {
        var w := Say(METHOD_NONE[offset..]);
        match w {
          case Pending => return Pending;
          case Ready(Err(e)) => return Ready(Err(e));
          case Ready(Ok(n)) =>
            if n == 0 {
              return Ready(Err(UnexpectedEof));
            }
            assert METHOD_NONE[..offset + n] == METHOD_NONE[..offset] + METHOD_NONE[offset..][..n];
            offset := offset + n;
        }
        if offset == |METHOD_NONE| {
          assert METHOD_NONE[..offset] == METHOD_NONE;
          return Ready(Ok(()));
        }
      }
    }

    /** One write of what is left of `wbuf`. */
    method WriteSome() returns (stop: Option<Poll<()>>)
      requires !stream.strict && stream.Valid() && OnlySaid() && wpos < 2 && (Greeting() || Replying())
      modifies this`wpos, this`said, stream`backedBuf, stream`markedBuf, stream.target`sent, stream.target`stalls
      ensures stream.target.stalls == old(stream.target.stalls) + if stop.None? then 0 else 1
      ensures OnlySaid() && stream.Valid() && Quiet()
      ensures Greeting() == old(Greeting()) && Replying() == old(Replying())
      ensures stop.None? ==> wpos > old(wpos)
      ensures stop.Some? ==>
                && wpos == old(wpos)
                && match stop.value {
                     case Pending => true
                     case Ready(Ok(_)) => false
                     case Ready(Err(e)) => e == Io || e == UnexpectedEof
                   }
    {
      hide Judge, Reading;
      var buf := wbuf.value;
      var w := Say(buf[wpos..]);
      match w {
        case Pending => return Some(Pending);
        case Ready(Err(e)) => return Some(Ready(Err(e)));
        case Ready(Ok(n)) =>
          if n == 0 {
            return Some(Ready(Err(UnexpectedEof)));
          }
          assert buf[..wpos + n] == buf[..wpos] + buf[wpos..][..n];
          Assoc(METHOD_PASSWORD, buf[..wpos], buf[wpos..][..n]);
          wpos := wpos + n;
          return None;
      }
    }

    /** The loop over `wbuf`: None when the greeting is out and reading starts or goes on. */
    method WriteOut() returns (stop: Option<Poll<()>>)
      requires standard && Valid()
      modifies this`wbuf, this`wpos, this`rbuf, this`said, stream`backedBuf, stream`markedBuf, stream.target`sent
      modifies stream.target`stalls
      ensures stream.target.stalls >= old(stream.target.stalls)
      ensures stop.None? ==> stream.target.stalls == old(stream.target.stalls)
      ensures stop.Some? && (stop.value.Pending? || stop.value.result == Err(Io) || stop.value.result == Err(UnexpectedEof)) ==>
                stream.target.stalls > old(stream.target.stalls)
      ensures stop.Some? && stop.value.Ready? && (stop.value.result.Ok? || stop.value.result.error == SocksAuthenticate) ==>
                stream.target.stalls == old(stream.target.stalls)
      ensures Quiet()
      ensures OnlySaid()
      ensures rbuf == old(rbuf) || fresh(rbuf)
      ensures stop.None? ==> Valid() && Quiet() && Reading() && (rbuf.Length > 0 ==> rpos < rbuf.Length) && cmpPass.None?
      ensures stop.Some? && stop.value.Pending? ==> Valid()
      ensures stop.Some? && stop.value.Ready? && stop.value.result.Ok? ==>
                && stream.Valid() && Quiet() && said == [5, 2, 1, 0]
                && Judge(got, username, password) == Accepted(|got|)
      ensures stop.Some? && stop.value.Ready? && stop.value.result.Err? ==> Explained(stop.value.result.error)
    {
      hide Judge;
      while wbuf.Some?
        invariant Valid() && OnlySaid() && got == old(got) && stream.target.stalls == old(stream.target.stalls)
        invariant rbuf == old(rbuf) || fresh(rbuf)
        decreases wbuf.Some?, 2 - wpos
      {
        var buf := wbuf.value;
        stop := WriteSome();
        if stop.Some? {
          return;
        }
        assert wpos == |buf| ==> buf[..wpos] == buf;
        if wpos == |buf| && cmpPass.None? && cmpUser.None? {
          rbuf := new byte[2](i => 0);
          wbuf := None;
          assert rbuf[..rpos] == [];
        } else if wpos == |buf| && cmpPass.Some? && cmpUser.Some? && !good {
          return Some(Ready(Err(SocksAuthenticate)));
        } else if wpos == |buf| && cmpPass.Some? && cmpUser.Some? && good {
          return Some(Ready(Ok(())));
        }
      }
      return None;
    }

    /** One read into the current buffer. */
    method ReadMore() returns (stop: Option<Poll<()>>)
      requires stream.Valid() && Quiet() && Reading()
      modifies this`rpos, this`got, rbuf, stream`backedBuf, stream.target`rest, stream.target`taken, stream.target`stalls
      ensures stop == Some(Pending) || stop == Some(Ready(Err(Io))) ==> stream.target.stalls > old(stream.target.stalls)
      ensures stream.target.stalls >= old(stream.target.stalls)
      ensures stop.None? ==> stream.target.stalls == old(stream.target.stalls)
      ensures OnlyGot() && stream.Valid() && Quiet()
      ensures stop.None? ==> Reading() && rpos > old(rpos)
      ensures stop.Some? ==>
                && Reading() && got == old(got) && rpos == old(rpos)
                && match stop.value {
                     case Pending => true
                     case Ready(Ok(_)) => false
                     case Ready(Err(e)) =>
                       e == Io || (e == UnexpectedEof && (rpos == rbuf.Length || stream.target.rest == []))
                   }
    {
      hide Judge, Reading;
      FieldFits();
      ghost var rest := stream.target.rest;
      var r := stream.PollPlain(rbuf, rpos, rbuf.Length);
      match r {
        case Pending =>
          FieldContinued([]);
          return Some(Pending);
        case Ready(Err(e)) =>
          FieldContinued([]);
          return Some(Ready(Err(e)));
        case Ready(Ok(n)) =>
          if n == 0 {
            FieldContinued([]);
            return Some(Ready(Err(UnexpectedEof)));
          }
          Assoc(old(got), rest[..n], stream.target.rest);
          rpos := rpos + n;
          got := got + rest[..n];
          FieldContinued(rest[..n]);
          return None;
      }
    }

    lemma FieldFits()
      requires Reading()
      ensures rbuf != null && rpos <= rbuf.Length
    {
    }

    twostate lemma FieldContinued(more: Bytes)
      requires old(Reading()) && rbuf == old(rbuf) && rbuf != null && rpos == old(rpos) + |more| <= rbuf.Length
      requires rbuf[..rpos] == old(rbuf[..rpos]) + more && got == old(got) + more
      requires wbuf == old(wbuf) && init == old(init) && good == old(good) && said == old(said)
      requires cmpUser == old(cmpUser) && cmpPass == old(cmpPass)
      ensures Reading()
    {
      if cmpUser.Some? {
        Assoc([1, |cmpUser.value| - 1] + cmpUser.value, old(rbuf[..rpos]), more);
      } else if init {
        Assoc([1, rbuf.Length - 1], old(rbuf[..rpos]), more);
      }
    }

    /** A full buffer: goes on to the name, to the password, or is done. */
    method NextField() returns (bad: bool)
      requires stream.Valid() && Quiet() && Reading() && rpos == rbuf.Length && rpos > 0
      modifies this`rpos, this`rbuf, this`init, this`cmpUser, this`cmpPass
      ensures bad ==> rbuf == old(rbuf)
      ensures bad ==> Explained(SocksAuthenticate)
      ensures !bad && rbuf == null ==> Received()
      ensures !bad && rbuf != null ==>
                Reading() && fresh(rbuf) && rpos == 0 && Rank() < old(Rank())
    {
      var buf := rbuf[..];
      assert rbuf[..rpos] == buf;
      if cmpUser.None? && !init {
        if buf[0] != 1 {
          return true;
        }
        rbuf := new byte[buf[1] + 1];
        rpos, init := 0, true;
        assert got == [1, rbuf.Length - 1] + rbuf[..rpos];
      } else if cmpUser.None? {
        rpos, cmpUser := 0, Some(buf);
        rbuf := new byte[buf[|buf| - 1]];
        assert got == [1, |buf| - 1] + buf + rbuf[..rpos];
      } else {
        cmpPass := Some(buf);
        rbuf := null;
      }
      return false;
    }

    ghost function Rank(): nat
      reads this`init, this`cmpUser
    {
      if cmpUser.Some? then 0 else if init then 1 else 2
    }

    /** The loop over `rbuf`: None when name and password are there. */
    method ReadIn() returns (stop: Option<Poll<()>>)
      requires standard && stream.Valid() && !stream.strict && OnlySaid() && Quiet() && Reading()
      requires rbuf.Length > 0 ==> rpos < rbuf.Length
      modifies this`rpos, this`rbuf, this`init, this`cmpUser, this`cmpPass, this`got
      modifies rbuf, stream`backedBuf, stream.target`rest, stream.target`taken, stream.target`stalls
      ensures wbuf.None?
      ensures stream.target.stalls >= old(stream.target.stalls)
      ensures stop.None? ==> stream.target.stalls == old(stream.target.stalls)
      ensures stop == Some(Pending) || stop == Some(Ready(Err(Io))) ==> stream.target.stalls > old(stream.target.stalls)
      ensures OnlyGot() && stream.Valid() && Quiet()
      ensures rbuf == null || rbuf == old(rbuf) || fresh(rbuf)
      ensures stop.None? ==> Received()
      ensures stop.Some? && stop.value.Pending? ==> Valid()
      ensures stop.Some? ==> stop.value.Pending? || stop.value.result.Err?
      ensures stop.Some? && stop.value.Ready? && stop.value.result.Err? ==> Explained(stop.value.result.error)
    {
      hide Judge, Explained;
      while true
        invariant OnlyGot() && stream.Valid() && OnlySaid() && Quiet() && Reading()
        invariant stream.target.stalls == old(stream.target.stalls)
        invariant rbuf == old(rbuf) || fresh(rbuf)
        invariant rbuf.Length > 0 ==> rpos < rbuf.Length
        decreases Rank(), rbuf.Length - rpos
      {
        var s := ReadMore();
        if s.Some? {
          if s.value.Ready? {
            EndsShort(s.value.result.error);
          }
          return s;
        }
        if rpos == rbuf.Length {
          var bad := NextField();
          if bad {
            return Some(Ready(Err(SocksAuthenticate)));
          }
          if rbuf == null {
            return None;
          }
        }
      }
    }

    /** While a field is being read there is no verdict, unless the password has length zero. */
    lemma Undecided()
      requires Reading() && (rbuf.Length > 0 ==> rpos < rbuf.Length)
      ensures Judge(got, username, password) == if rbuf.Length == 0 then NoPassword else NeedMore
    {
      if cmpUser.Some? {
        var u := cmpUser.value;
        assert got[1] == |u| - 1 && got[2 + (|u| - 1)] == u[|u| - 1];
      } else if init {
        assert got[0] == 1 && got[1] == rbuf.Length - 1;
      }
    }

    lemma EndsShort(e: Error)
      requires Reading() && (rbuf.Length > 0 ==> rpos < rbuf.Length)
      requires e == Io || (e == UnexpectedEof && (rpos == rbuf.Length || stream.target.rest == []))
      ensures Explained(e)
    {
      Undecided();
    }

    /** Name and password are there: prepares the reply. */
    method Decide()
      requires Received()
      modifies this`wpos, this`wbuf, this`good
      ensures Replying() && wpos == 0
    {
      var user, pass := cmpUser.value, cmpPass.value;
      wpos := 0;
      good := password == pass && user[..|user| - 1] == username;
      wbuf := Some([1, if good then 0 else 1]);
      var ul := |user| - 1;
      assert got[1] == ul && got[2..2 + ul] == user[..ul] && got[2 + ul] == user[ul];
      assert got[3 + ul..3 + ul + |pass|] == pass;
      assert said == METHOD_PASSWORD + wbuf.value[..wpos];
    }

    /**
     One poll. Success means that exactly a request with the right name and password was read and
     answered with 05 02 01 00; the errors say what was read, and 01 01 is the answer to a wrong one.
     */
    method PollStandard() returns (r: Poll<()>)
      requires standard && Valid()
      modifies this`rpos, this`rbuf, this`init, this`cmpUser, this`cmpPass, this`got
      modifies this`wbuf, this`wpos, this`said, this`good
      modifies rbuf, stream`backedBuf, stream`markedBuf, stream.target`sent, stream.target`rest, stream.target`taken
      modifies stream.target`stalls
      ensures r == Ready(Err(UnexpectedEof)) && wbuf.Some? ==> stream.target.stalls > old(stream.target.stalls)
      ensures stream.target.stalls >= old(stream.target.stalls)
      ensures r.Pending? || r == Ready(Err(Io)) ==> stream.target.stalls > old(stream.target.stalls)
      ensures Quiet()
      ensures OnlySaid() && OnlyGot()
      ensures rbuf == null || rbuf == old(rbuf) || fresh(rbuf)
      ensures r.Pending? ==> Valid()
      ensures r.Ready? && r.result.Ok? ==>
                && Judge(got, username, password) == Accepted(|got|) && said == [5, 2, 1, 0]
                && stream.Valid() && Quiet()
      ensures r.Ready? && r.result.Err? ==> Explained(r.result.error)
    {
      hide Judge, Explained, Greeting, Reading;
      var doNext := true;
      while doNext
        invariant doNext && Valid() && OnlySaid() && OnlyGot() && stream.target.stalls == old(stream.target.stalls)
        invariant rbuf == null || rbuf == old(rbuf) || fresh(rbuf)
        decreases if wbuf.Some? && cmpPass.Some? then 0 else 1
      {
        doNext := false;
        var stop := WriteOut();
        if stop.Some? {
          return stop.value;
        }
        stop := ReadIn();
        if stop.Some? {
          return stop.value;
        }
        if cmpPass.Some? && cmpUser.Some? {
          Decide();
          doNext := true;
        }
      }
      assert false;
    }

    /** One poll of the authentication the server is configured for. */
    method PollAuth() returns (r: Poll<()>)
      requires Valid()
      modifies this`offset, this`rpos, this`rbuf, this`init, this`cmpUser, this`cmpPass, this`got
      modifies this`wbuf, this`wpos, this`said, this`good
      modifies rbuf, stream`backedBuf, stream`markedBuf, stream.target`sent, stream.target`rest, stream.target`taken
      modifies stream.target`stalls
      ensures r.Ready? && r.result.Err? ==> r.result.error in {Io, UnexpectedEof, SocksAuthenticate}
      ensures r == Ready(Err(UnexpectedEof)) && (!standard || wbuf.Some?) ==>
                stream.target.stalls > old(stream.target.stalls)
      ensures stream.target.stalls >= old(stream.target.stalls)
      ensures r.Pending? || r == Ready(Err(Io)) ==> stream.target.stalls > old(stream.target.stalls)
      ensures Quiet()
      ensures OnlySaid() && OnlyGot()
      ensures rbuf == null || rbuf == old(rbuf) || fresh(rbuf)
      ensures r.Pending? ==> Valid()
      ensures r.Ready? && r.result.Ok? ==> Passed() && stream.Valid() && Quiet()
      ensures r.Ready? && r.result.Err? ==>
                if standard then Explained(r.result.error) else got == [] && r.result.error in {Io, UnexpectedEof}
    {
      hide Judge, Reading, Replying, Greeting;
      if standard {
        r := PollStandard();
      } else {
        r := PollSkip();
      }
    }

    /** Nothing was asked, or the right name and password were given and acknowledged. */
    ghost predicate Passed()
      reads this
    {
      if standard then
        Judge(got, username, password) == Accepted(|got|) && said == [5, 2, 1, 0]
      else
        got == [] && said == [5, 0]
    }

    ghost predicate Explained(e: Error)
      reads this, stream.target`rest
    {
      match e
      case SocksAuthenticate =>
        || (Judge(got, username, password) == Denied(|got|) && said == [5, 2, 1, 1])
        || (Judge(got, username, password) == BadVersion && |got| == 2 && said == [5, 2])
      case UnexpectedEof =>
        || (wpos < 2 && (Greeting() || Replying()))
        || Judge(got, username, password) == NoPassword
        || (Judge(got, username, password) == NeedMore && stream.target.rest == [])
      case _ => e == Io
    }
  }
}

/** Writing a reply into the caller's buffer in place. */
module DhcpBuild {
  import opened Machine
  import opened DhcpOptions
  import opened DhcpMessage

  /** option_t: an option and whether it is to be written. */
  datatype Spec = Spec(opt: Opt, wanted: bool)

  function Included(specs: seq<Spec>): (r: seq<Opt>)
    ensures forall o :: o in r ==> exists i :: 0 <= i < |specs| && specs[i].opt == o
  {
    if specs == [] then []
    else
      var k := |specs| - 1;
      if specs[k].wanted then Included(specs[..k]) + [specs[k].opt] else Included(specs[..k])
  }

  predicate SpecsWritable(specs: seq<Spec>) {
    forall i :: 0 <= i < |specs| ==> Writable(specs[i].opt)
  }

  lemma IncludedNext(specs: seq<Spec>, i: nat)
    requires i < |specs|
    ensures Included(specs[..i + 1]) ==
            if specs[i].wanted then Included(specs[..i]) + [specs[i].opt] else Included(specs[..i])
  {
    assert specs[..i + 1][..i] == specs[..i];
  }

  lemma IncludedWritable(specs: seq<Spec>)
    requires SpecsWritable(specs)
    ensures AllWritable(Included(specs))
  {
    forall i | 0 <= i < |Included(specs)| ensures Writable(Included(specs)[i]) {
      assert Included(specs)[i] in Included(specs);
    }
  }

  lemma {:induction false} EncConcat(a: seq<Opt>, o: Opt)
    requires AllWritable(a) && Writable(o)
    ensures AllWritable(a + [o]) && EncAll(a + [o]) == EncAll(a) + Enc(o)
    decreases |a|
  {
    if a == [] {
      assert a + [o] == [o] && EncAll([o]) == Enc(o) + EncAll([]);
    } else {
      EncConcat(a[1..], o);
      assert (a + [o])[1..] == a[1..] + [o];
      Associative(Enc(a[0]), EncAll(a[1..]), Enc(o));
    }
  }

  /** memcpy into the buffer */
  method PutBytes(out: array<byte>, pos: nat, data: seq<byte>)
    requires pos + |data| <= out.Length
    modifies out
    ensures out[..] == old(out[..pos]) + data + old(out[pos + |data|..])
  {
    for i := 0 to |data|
      invariant forall j :: 0 <= j < out.Length ==>
                  out[j] == if pos <= j < pos + i then data[j - pos] else old(out[j])
    {
      out[pos + i] := data[i];
    }
  }

  /** The opt_size loop of embedd_options. */
  method TotalSize(specs: seq<Spec>) returns (size: nat)
    ensures size == Size(Included(specs))
  {
    size := 0;
    for i := 0 to |specs|
      invariant size == Size(Included(specs[..i]))
    {
      IncludedNext(specs, i);
      if specs[i].wanted {
        SizeConcat(Included(specs[..i]), [specs[i].opt]);
        size := size + 2 + |specs[i].opt.data|;
      }
    }
    assert specs[..|specs|] == specs;
  }

  /** One option behind the bytes pre and the options done. */
  method WriteOne(out: array<byte>, pos: nat, o: Opt, ghost pre: seq<byte>, ghost done: seq<Opt>) returns (next: nat)
    requires Writable(o) && AllWritable(done) && pos + 2 + |o.data| <= out.Length && out[..pos] == pre + EncAll(done)
    modifies out
    ensures next == pos + 2 + |o.data| && AllWritable(done + [o]) && out[..next] == pre + EncAll(done + [o])
  {
    EncConcat(done, o);
    Associative(pre, EncAll(done), Enc(o));
    PutBytes(out, pos, Enc(o));
    next := pos + 2 + |o.data|;
    assert out[..next] == old(out[..pos]) + Enc(o);
  }

  /** The writing loop of embedd_options. */
  method WriteOptions(out: array<byte>, specs: seq<Spec>) returns (pos: nat)
    requires SpecsWritable(specs) && 240 + Size(Included(specs)) <= out.Length
    modifies out
    ensures AllWritable(Included(specs)) && pos == 240 + Size(Included(specs)) && pos <= out.Length
    ensures out[..pos] == old(out[..240]) + EncAll(Included(specs))
  {
    pos := 240;
    for i := 0 to |specs|
      invariant AllWritable(Included(specs[..i])) && pos == 240 + Size(Included(specs[..i])) && pos <= out.Length
      invariant out[..pos] == old(out[..240]) + EncAll(Included(specs[..i]))
    {
      SizeGrows(specs, i);
      IncludedNext(specs, i);
      if specs[i].wanted {
        SizeConcat(Included(specs[..i]), [specs[i].opt]);
        pos := WriteOne(out, pos, specs[i].opt, old(out[..240]), Included(specs[..i]));
      }
    }
    assert specs[..|specs|] == specs;
  }

  lemma {:induction false} SizeGrows(specs: seq<Spec>, i: nat)
    requires i < |specs|
    ensures Size(Included(specs[..i + 1])) <= Size(Included(specs))
    decreases |specs| - i
  {
    if i + 1 == |specs| {
      assert specs[..i + 1] == specs;
    } else {
      SizeGrows(specs, i + 1);
      IncludedNext(specs, i + 1);
      SizeConcat(Included(specs[..i + 1]), [specs[i + 1].opt]);
    }
  }

  /** Where embedd_options puts END, for options of this size. */
  function EndAt(size: nat): nat {
    if 240 + size < 300 then 299 else 240 + size
  }

  /** The size test leaves out the END byte: among the calls it lets pass, END falls
      outside the buffer if and only if the options fill it. */
  lemma EndOutside(specs: seq<Spec>, cap: nat)
    requires cap >= 300 && 240 + Size(Included(specs)) <= cap
    ensures EndAt(Size(Included(specs))) >= cap <==> 240 + Size(Included(specs)) == cap
    ensures EndAt(Size(Included(specs))) <= cap
  {
  }

  /** embedd_options. `past` tells that END went one byte past the buffer; that byte
      is not part of the array. */
  method EmbedOptions(out: array<byte>, specs: seq<Spec>) returns (ok: bool, len: nat, past: bool)
    requires SpecsWritable(specs) && out.Length >= 300
    modifies out
    ensures ok <==> 240 + Size(Included(specs)) <= out.Length
    ensures !ok ==> len == 0 && out[..] == old(out[..])
    ensures past <==> 240 + Size(Included(specs)) == out.Length
    ensures ok ==> AllWritable(Included(specs)) && len == EndAt(Size(Included(specs))) + 1
    ensures past ==> out[..] == old(out[..240]) + EncAll(Included(specs))
    ensures ok && !past ==> len <= out.Length
    ensures ok && Size(Included(specs)) < 60 ==>
              len == 300 && |EncAll(Included(specs))| < 60
              && out[..300] == old(out[..240]) + Padded(EncAll(Included(specs)))
    ensures ok && !past && Size(Included(specs)) >= 60 ==>
              out[..len] == old(out[..240]) + EncAll(Included(specs)) + [END]
  {
    len, past := 0, false;
    var size := TotalSize(specs);
    if 240 + size > out.Length {
      return false, 0, false;
    }
    EndOutside(specs, out.Length);
    IncludedWritable(specs);
    EncLength(Included(specs));
    var pos := WriteOptions(out, specs);
    ghost var before := out[..pos];
    if pos < 300 {
      PutBytes(out, pos, Fill(300 - pos, 0));
      assert out[..300] == before + Fill(300 - pos, 0);
      ghost var padded := out[..300];
      pos := 299;
      out[pos] := END;
      PadFill(before, 300 - |before|);
      assert out[..300] == padded[299 := END];
      assert before + Fill(299 - |before|, 0) + [END] == old(out[..240]) + Padded(EncAll(Included(specs)));
    } else if pos < out.Length {
      out[pos] := END;
      assert out[..pos + 1] == before + [END];
    } else {
      past := true;
      assert out[..] == out[..pos];
    }
    len := pos + 1;
    ok := true;
  }

  lemma PadFill(before: seq<byte>, n: nat)
    requires n > 0
    ensures (before + Fill(n, 0))[|before| + n - 1 := END] == before + Fill(n - 1, 0) + [END]
  {
  }

  /** dhcp_build_reply */
  method BuildReply(raw: seq<byte>, f: Fields, kind: byte, c: ServerCfg, yiaddr: seq<byte>, out: array<byte>)
    returns (ok: bool, len: nat)
    requires |raw| >= 236 && |yiaddr| == 4 && CfgOk(c) && (f.hasClientId ==> |f.clientId| <= CID_CAP)
    modifies out
    ensures ok <==> out.Length >= 300
    ensures !ok ==> len == 0 && out[..] == old(out[..])
    ensures ok ==> len == 300 && out[..300] == Reply(raw, f, kind, c, yiaddr)
    ensures ok ==> Configured(Split(Area(out[..300], 300, 240)).opts, f, kind, c)
  {
    if out.Length < 300 {
      return false, 0;
    }
    PutBytes(out, 0, Fill(out.Length, 0));
    WriteHeader(raw, yiaddr, out);
    var specs := [Spec(Opt(MESSAGE_TYPE, [kind]), true)] + CfgSpecs(c)
                 + [Spec(Opt(CLIENT_ID, if f.hasClientId then f.clientId else []), f.hasClientId)];
    SpecsAre(f, kind, c, specs);
    ReplyOptionsFit(f, kind, c);
    EncLength(ReplyOptions(f, kind, c));
    var past;
    ok, len, past := EmbedOptions(out, specs);
    assert !past;
    ReplyConfigured(raw, f, kind, c, yiaddr);
  }

  /** The fixed part of dhcp_build_reply. */
  method WriteHeader(raw: seq<byte>, yiaddr: seq<byte>, out: array<byte>)
    requires |raw| >= 236 && |yiaddr| == 4 && out.Length >= 300
    modifies out
    ensures out[..240] == ReplyHeader(raw, yiaddr) + COOKIE
  {
    PutBytes(out, 0, raw[..236]);
    assert out[..236] == raw[..236];
    out[0], out[3], out[8], out[9] := BOOTREPLY, 0, 0, 0;
    out[16], out[17], out[18], out[19] := yiaddr[0], yiaddr[1], yiaddr[2], yiaddr[3];
    assert out[..236] == ReplyHeader(raw, yiaddr);
    PutBytes(out, 236, COOKIE);
  }

  function CfgSpecs(c: ServerCfg): (r: seq<Spec>)
    requires CfgOk(c)
    ensures |r| == 6 && forall i :: 0 <= i < 6 ==> r[i] == Spec(CfgOptions(c)[i], true)
  {
    var o := CfgOptions(c);
    [Spec(o[0], true), Spec(o[1], true), Spec(o[2], true), Spec(o[3], true), Spec(o[4], true), Spec(o[5], true)]
  }

  lemma {:induction false} IncludedAll(specs: seq<Spec>, opts: seq<Opt>)
    requires |specs| == |opts| && forall i :: 0 <= i < |opts| ==> specs[i] == Spec(opts[i], true)
    ensures Included(specs) == opts
    decreases |specs|
  {
    if specs != [] {
      var k := |specs| - 1;
      IncludedAll(specs[..k], opts[..k]);
      assert opts[..k] + [opts[k]] == opts;
    }
  }

  lemma SpecsAre(f: Fields, kind: byte, c: ServerCfg, specs: seq<Spec>)
    requires CfgOk(c) && (f.hasClientId ==> |f.clientId| <= CID_CAP)
    requires specs == [Spec(Opt(MESSAGE_TYPE, [kind]), true)] + CfgSpecs(c)
                      + [Spec(Opt(CLIENT_ID, if f.hasClientId then f.clientId else []), f.hasClientId)]
    ensures SpecsWritable(specs) && Included(specs) == ReplyOptions(f, kind, c)
  {
    var fixed := [Opt(MESSAGE_TYPE, [kind])] + CfgOptions(c);
    assert specs[..7] == [Spec(Opt(MESSAGE_TYPE, [kind]), true)] + CfgSpecs(c);
    IncludedAll(specs[..7], fixed);
    IncludedNext(specs, 7);
    assert specs[..8] == specs;
    assert fixed + [] == fixed;
  }
}

/** 8.3 names: from a path to the eleven bytes of a directory entry (create_name), and back (get_fileinfo). */
module ShortName {
  import opened Bytes

  const DDEM: Byte := 0xE5
  const RDDEM: Byte := 0x05
  const BLANK: Byte := 0x20
  const DOT: Byte := 0x2E

  /** Code page 437's upper-case table for bytes from 0x80 on. */
  function ExCvt(c: Byte): Byte
  {
    match c
    case 0x81 => 0x9A case 0x82 => 0x45 case 0x83 => 0x41 case 0x84 => 0x8E case 0x85 => 0x41 case 0x86 => 0x8F
    case 0x87 => 0x80
    case 0x88 => 0x45 case 0x89 => 0x45 case 0x8A => 0x45 case 0x8B => 0x49 case 0x8C => 0x49 case 0x8D => 0x49
    case 0x91 => 0x92 case 0x93 => 0x4F case 0x94 => 0x99 case 0x95 => 0x4F case 0x96 => 0x55 case 0x97 => 0x55
    case 0x98 => 0x59
    case 0xA0 => 0x41 case 0xA1 => 0x49 case 0xA2 => 0x4F case 0xA3 => 0x55 case 0xA4 => 0xA5
    case _ => c
  }

  predicate IsLower(c: Byte)
  {
    0x61 <= c <= 0x7A
  }

  /** The characters create_name refuses: "*+,:;<=>?[]| and DEL. */
  predicate Illegal(c: Byte)
  {
    c in {0x22, 0x2A, 0x2B, 0x2C, 0x3A, 0x3B, 0x3C, 0x3D, 0x3E, 0x3F, 0x5B, 0x5D, 0x7C, 0x7F}
  }

  predicate IsSeparator(c: Byte)
  {
    c == 0x2F || c == 0x5C
  }

  /** A character converted by the code page, before the check. */
  function Converted(c: Byte): Byte
  {
    if c >= 0x80 then ExCvt(c) else c
  }

  /** The character as it is stored. */
  function Upper(c: Byte): Byte
  {
    var d := Converted(c);
    if IsLower(d) then d - 0x20 else d
  }

  /** A character that may stand in a name. */
  predicate Allowed(c: Byte)
  {
    c > BLANK && !IsSeparator(c) && c != DOT && !Illegal(Converted(c))
  }

  /** Up-casing is idempotent and stays among the allowed characters. */
  lemma UpperAgain(c: Byte)
    requires Allowed(c)
    ensures Upper(Upper(c)) == Upper(c) && Allowed(Upper(c))
  {
  }

  /** The characters a name may hold: below 0x80 letters, digits and !#$%&'()-@^_`{}~, above that all. */
  lemma AllowedOnes(c: Byte)
    ensures Allowed(c) <==>
      || c >= 0x80 || 0x30 <= c <= 0x39 || 0x40 <= c <= 0x5A || 0x5E <= c <= 0x7B
      || c in {0x21, 0x23, 0x24, 0x25, 0x26, 0x27, 0x28, 0x29, 0x2D, 0x7D, 0x7E}
  {
  }

  /** Letters are stored in upper case, and so are those of code page 437 with or without their accents; the rest is
      stored as it is. */
  lemma StoredAs(c: Byte)
    requires Allowed(c)
    ensures 0x61 <= c <= 0x7A ==> Upper(c) == c - 0x20
    ensures c < 0x80 && !(0x61 <= c <= 0x7A) ==> Upper(c) == c
    ensures c in {0x83, 0x85, 0xA0} ==> Upper(c) == 0x41
    ensures c in {0x82, 0x88, 0x89, 0x8A} ==> Upper(c) == 0x45
    ensures c in {0x8B, 0x8C, 0x8D, 0xA1} ==> Upper(c) == 0x49
    ensures c in {0x93, 0x95, 0xA2} ==> Upper(c) == 0x4F
    ensures c in {0x96, 0x97, 0xA3} ==> Upper(c) == 0x55
    ensures c == 0x98 ==> Upper(c) == 0x59
    ensures (c, Upper(c)) in {(0x81, 0x9A), (0x84, 0x8E), (0x86, 0x8F), (0x87, 0x80), (0x91, 0x92), (0x94, 0x99),
                              (0xA4, 0xA5)}
      <==> c in {0x81, 0x84, 0x86, 0x87, 0x91, 0x94, 0xA4}
    ensures c >= 0xA5 || c in {0x80, 0x8E, 0x8F, 0x90, 0x92, 0x99, 0x9A, 0x9B, 0x9C, 0x9D, 0x9E, 0x9F} ==> Upper(c) == c
  {
  }

  function Uppers(s: seq<Byte>): (r: seq<Byte>)
    ensures |r| == |s| && forall i :: 0 <= i < |s| ==> r[i] == Upper(s[i])
  {
    seq(|s|, i requires 0 <= i < |s| => Upper(s[i]))
  }

  function Blanks(n: nat): (r: seq<Byte>)
    ensures |r| == n && forall i :: 0 <= i < n ==> r[i] == BLANK
  {
    seq(n, _ => BLANK)
  }

  /** Eleven bytes: body and extension, padded. */
  function Row(body: seq<Byte>, ext: seq<Byte>): (r: seq<Byte>)
    requires |body| <= 8 && |ext| <= 3
    ensures |r| == 11
    ensures forall i :: 0 <= i < 11 ==>
      r[i] == if i < |body| then Upper(body[i]) else if 8 <= i < 8 + |ext| then Upper(ext[i - 8]) else BLANK
  {
    Uppers(body) + Blanks(8 - |body|) + Uppers(ext) + Blanks(3 - |ext|)
  }

  /** The name as stored: a first byte that would mark a deleted entry is replaced. */
  function Packed(body: seq<Byte>, ext: seq<Byte>): (r: seq<Byte>)
    requires |body| <= 8 && |ext| <= 3
    ensures |r| == 11
  {
    var r := Row(body, ext);
    if r[0] == DDEM then r[0 := RDDEM] else r
  }

  /** The eleven bytes, one by one. */
  lemma PackedBytes(body: seq<Byte>, ext: seq<Byte>, i: nat)
    requires |body| <= 8 && |ext| <= 3 && i < 11
    ensures Packed(body, ext)[i] ==
      if i < |body| then (if i == 0 && Upper(body[0]) == 0xE5 then 0x05 else Upper(body[i]))
      else if 8 <= i < 8 + |ext| then Upper(ext[i - 8])
      else 0x20
  {
    hide Upper;
  }

  predicate AllAllowed(s: seq<Byte>)
  {
    forall i :: 0 <= i < |s| ==> Allowed(s[i])
  }

  /** The first segment of a path: up to a separator or the end. */
  function SegmentLength(p: seq<Byte>): (n: nat)
    ensures n <= |p|
    ensures forall i :: 0 <= i < n ==> p[i] > 0x20 && p[i] !in {0x2F, 0x5C}
    ensures n < |p| ==> p[n] <= 0x20 || p[n] in {0x2F, 0x5C}
  {
    if p == [] || p[0] <= BLANK || IsSeparator(p[0]) then 0 else 1 + SegmentLength(p[1..])
  }

  /** Where the first dot of a segment is; its length if there is none. */
  function DotAt(s: seq<Byte>): (d: nat)
    ensures d <= |s| && (d < |s| ==> s[d] == DOT)
    ensures forall i :: 0 <= i < d ==> s[i] != DOT
  {
    if s == [] || s[0] == DOT then 0 else 1 + DotAt(s[1..])
  }

  function Body(s: seq<Byte>): seq<Byte>
  {
    s[..DotAt(s)]
  }

  function Ext(s: seq<Byte>): seq<Byte>
  {
    if DotAt(s) < |s| then s[DotAt(s) + 1..] else []
  }

  /** An 8.3 name. */
  predicate Is83(s: seq<Byte>)
  {
    && s != []
    && |Body(s)| <= 8 && |Ext(s)| <= 3
    && AllAllowed(Body(s)) && AllAllowed(Ext(s))
  }

  /** Past any further separators. */
  method SkipSeparators(path: seq<Byte>, si0: nat, ghost n: nat) returns (si: nat)
    requires n < si0 <= |path| && forall j :: n <= j < si0 ==> IsSeparator(path[j])
    ensures n < si <= |path| && (si < |path| ==> !IsSeparator(path[si])) && forall j :: n <= j < si ==>
      IsSeparator(path[j])
  {
    si := si0;
    while si < |path| && IsSeparator(path[si])
      invariant n < si <= |path| && forall j :: n <= j < si ==> IsSeparator(path[j])
    {
      si := si + 1;
    }
  }

  /** Convert, check and store one character. */
  method PutChar(sfn: array<Byte>, i: nat, c0: Byte) returns (stored: bool)
    requires i < sfn.Length && c0 > BLANK && !IsSeparator(c0) && c0 != DOT
    modifies sfn
    ensures stored <==> Allowed(c0)
    ensures stored ==> sfn[..] == old(sfn[..])[i := Upper(c0)]
  {
    var c := c0;
    if c >= 0x80 {
      c := ExCvt(c);
    }
    stored := !Illegal(c);
    if stored {
      if IsLower(c) {
        c := c - 0x20;
      }
      sfn[i] := c;
    }
  }

  /** Storing a character next in the body or in the extension. */
  lemma RowAppend(b: seq<Byte>, e: seq<Byte>, c: Byte)
    requires |b| <= 8 && |e| <= 3
    ensures |b| < 8 && e == [] ==> Row(b + [c], e) == Row(b, e)[|b| := Upper(c)]
    ensures |e| < 3 ==> Row(b, e + [c]) == Row(b, e)[8 + |e| := Upper(c)]
  {
    hide Upper;
  }

  /** mem_set(sfn, ' ', 11). */
  method FillBlank(sfn: array<Byte>)
    requires sfn.Length == 12
    modifies sfn
    ensures sfn[..11] == Row([], [])
  {
    for k := 0 to 11
      invariant forall j :: 0 <= j < k ==> sfn[j] == BLANK
    {
      sfn[k] := BLANK;
    }
  }

  /** The scan of the segment `s` stands behind `si` characters: `b` and `e` have gone to body and extension. */
  ghost predicate Scanned(s: seq<Byte>, si: nat, i: nat, ni: nat, b: seq<Byte>, e: seq<Byte>)
  {
    && si <= |s| && |b| <= 8 && |e| <= 3 && AllAllowed(b) && AllAllowed(e)
    && if ni == 8 then si <= DotAt(s) && i == si && b == s[..si] && e == []
       else ni == 11 && DotAt(s) < si && i == 8 + |e| && b == Body(s) && e == s[DotAt(s) + 1..si]
  }

  /** A character to be stored goes on with the scan. */
  lemma ScanChar(s: seq<Byte>, si: nat, i: nat, ni: nat, b: seq<Byte>, e: seq<Byte>)
    requires Scanned(s, si, i, ni, b, e) && si < |s| && s[si] != DOT && i < ni && Allowed(s[si])
    ensures if ni == 8 then Scanned(s, si + 1, i + 1, ni, b + [s[si]], e)
      else Scanned(s, si + 1, i + 1, ni, b, e + [s[si]])
    ensures i == if ni == 8 then |b| else 8 + |e|
  {
    hide Allowed;
  }

  lemma ScanDot(s: seq<Byte>, si: nat, i: nat, b: seq<Byte>, e: seq<Byte>)
    requires Scanned(s, si, i, 8, b, e) && si < |s| && s[si] == DOT
    ensures Scanned(s, si + 1, 8, 11, b, e)
  {
    hide Allowed;
  }

  /** At the end of the segment, body and extension are complete. */
  lemma ScanEnd(s: seq<Byte>, i: nat, ni: nat, b: seq<Byte>, e: seq<Byte>)
    requires Scanned(s, |s|, i, ni, b, e)
    ensures b == Body(s) && e == Ext(s) && (i == 0 <==> s == []) && (Is83(s) <==> s != [])
  {
    hide Allowed;
  }

  /** The loop of create_name. `c` is the character that ended it. */
  method ScanName(path: seq<Byte>, sfn: array<Byte>)
    returns (ok: bool, c: Byte, si: nat, i: nat, ghost b: seq<Byte>, ghost e: seq<Byte>)
    requires sfn.Length == 12 && sfn[..11] == Row([], [])
    modifies sfn
    ensures !ok ==> !Is83(path[..SegmentLength(path)])
    ensures ok ==> exists ni :: Scanned(path[..SegmentLength(path)], SegmentLength(path), i, ni, b, e)
    ensures ok ==> sfn[..11] == Row(b, e)
    ensures ok ==> c == if SegmentLength(path) < |path| then path[SegmentLength(path)] else 0
    ensures ok && c <= BLANK ==> si == SegmentLength(path) + 1
    ensures ok && c > BLANK ==> SegmentLength(path) < si <= |path| && (si < |path| ==> !IsSeparator(path[si]))
    ensures ok && c > BLANK ==> forall j :: SegmentLength(path) <= j < si ==> IsSeparator(path[j])
  {
    hide ExCvt;
    hide Illegal;
    hide SegmentLength;
    hide Row;
    hide Allowed;
    hide Upper;
    hide Is83;
    ghost var n := SegmentLength(path);
    ghost var s := path[..n];
    var ni := 8;
    ok, c, si, i, b, e := false, 0, 0, 0, [], [];
    while true
      invariant si <= n && Scanned(s, si, i, ni, b, e) && sfn[..11] == Row(b, e) && !ok
      decreases n - si
    {
      c := if si < |path| then path[si] else 0;
      si := si + 1;
      if c <= BLANK { break; }
      if IsSeparator(c) {
        si := SkipSeparators(path, si, n);
        break;
      }
      if c == DOT || i >= ni {
        if ni == 11 || c != DOT {
          Overflow(s, si - 1, ni);
          return;
        }
        ScanDot(s, si - 1, i, b, e);
        i, ni := 8, 11;
        continue;
      }
      InPart(s, si - 1);
      var stored := PutChar(sfn, i, c);
      if !stored { return; }
      RowAppend(b, e, c);
      ScanChar(s, si - 1, i, ni, b, e);
      if ni == 8 { b := b + [c]; } else { e := e + [c]; }
      i := i + 1;
    }
    ok := true;
  }

  /** create_name: the first segment of `path` into `sfn`; `next` is where the following one starts. */
  method CreateName(path: seq<Byte>, sfn: array<Byte>) returns (ok: bool, last: bool, next: nat)
    requires sfn.Length == 12
    modifies sfn
    ensures var s := path[..SegmentLength(path)];
            && (ok <==> Is83(s))
            && (ok ==> sfn[..11] == Packed(Body(s), Ext(s)))
    ensures ok ==> (last <==> SegmentLength(path) == |path| || path[SegmentLength(path)] <= BLANK)
    ensures ok && last ==> next == SegmentLength(path) + 1
    ensures ok && !last ==>
      && SegmentLength(path) < next <= |path| && (next < |path| ==> !IsSeparator(path[next]))
      && forall j :: SegmentLength(path) <= j < next ==> IsSeparator(path[j])
  {
    hide Row;
    hide Is83;
    hide Scanned;
    hide Allowed;
    ghost var s := path[..SegmentLength(path)];
    FillBlank(sfn);
    var c, i;
    ghost var b, e;
    ok, c, next, i, b, e := ScanName(path, sfn);
    last := c <= BLANK;
    if !ok { return; }
    ghost var ni :| Scanned(s, |s|, i, ni, b, e);
    ScanEnd(s, i, ni, b, e);
    if i == 0 { return false, last, next; }
    if sfn[0] == DDEM {
      sfn[0] := RDDEM;
    }
  }

  /** A character that fits neither body nor extension. */
  lemma Overflow(s: seq<Byte>, k: nat, ni: nat)
    requires k < |s| && (ni == 8 || ni == 11)
    requires if ni == 8 then k <= DotAt(s) && k >= 8 && s[k] != DOT
      else DotAt(s) < k && (s[k] == DOT || k - DotAt(s) - 1 >= 3)
    ensures !Is83(s)
  {
    hide Allowed;
    hide DotAt;
    DotStandsAlone();
    if ni == 11 && s[k] == DOT {
      assert Ext(s)[k - DotAt(s) - 1] == DOT;
    }
  }

  lemma DotStandsAlone()
    ensures !Allowed(DOT)
  {
  }

  /** A character of the body or of the extension must be allowed. */
  lemma InPart(s: seq<Byte>, k: nat)
    requires k < |s| && s[k] != DOT
    ensures !Allowed(s[k]) ==> !Is83(s)
  {
    hide ExCvt;
    hide Illegal;
    hide DotAt;
    if k < DotAt(s) {
      assert Body(s)[k] == s[k];
    } else {
      assert Ext(s)[k - DotAt(s) - 1] == s[k];
    }
  }

  /** RDDEM stands for DDEM. */
  function Restored(c: Byte): Byte
  {
    if c == RDDEM then DDEM else c
  }

  /** What get_fileinfo has printed of an entry's name after `k` of its bytes. */
  function Print(d: seq<Byte>, k: nat): (r: seq<Byte>)
    requires k <= |d|
    ensures |r| <= if k < 9 then k else k + 1
  {
    if k == 0 then []
    else Print(d, k - 1) + if d[k - 1] == BLANK then [] else (if k == 9 then [DOT] else []) + [Restored(d[k - 1])]
  }

  /** The name part of get_fileinfo: at most 12 characters and a terminator. */
  method GetName(dir: seq<Byte>, fname: array<Byte>) returns (di: nat)
    requires |dir| >= 11 && fname.Length == 13
    modifies fname
    ensures di <= 12 && fname[di] == 0 && fname[..di] == Print(dir, 11)
  {
    var si := 0;
    di := 0;
    while si < 11
      invariant si <= 11 && di == |Print(dir, si)| && fname[..di] == Print(dir, si)
    {
      var c := dir[si];
      si := si + 1;
      if c == BLANK { continue; }
      if c == RDDEM {
        c := DDEM;
      }
      if si == 9 {
        fname[di] := DOT;
        di := di + 1;
      }
      fname[di] := c;
      di := di + 1;
    }
    fname[di] := 0;
  }

  /** Body and extension as they are printed. */
  function Printed(b: seq<Byte>, e: seq<Byte>): seq<Byte>
  {
    Joined(Uppers(b), Uppers(e))
  }

  function Joined(b: seq<Byte>, e: seq<Byte>): seq<Byte>
  {
    b + if e == [] then [] else [DOT] + e
  }

  /** A stored byte prints as the character it stands for. */
  lemma PackedByte(b: seq<Byte>, e: seq<Byte>, i: nat)
    requires |b| <= 8 && |e| <= 3 && AllAllowed(b) && AllAllowed(e) && i < 11
    ensures i < |b| ==> Packed(b, e)[i] != BLANK && Restored(Packed(b, e)[i]) == Upper(b[i])
    ensures 8 <= i < 8 + |e| ==> Packed(b, e)[i] != BLANK && Restored(Packed(b, e)[i]) == Upper(e[i - 8])
    ensures !(i < |b| || 8 <= i < 8 + |e|) ==> Packed(b, e)[i] == BLANK
  {
    hide ExCvt;
    hide Illegal;
    if i < |b| {
      UpperAgain(b[i]);
    } else if 8 <= i < 8 + |e| {
      UpperAgain(e[i - 8]);
    }
  }

  /** What has been printed after `k` bytes of the body. */
  lemma {:induction false} PrintBody(b: seq<Byte>, e: seq<Byte>, k: nat)
    requires |b| <= 8 && |e| <= 3 && AllAllowed(b) && AllAllowed(e) && k <= 8
    ensures Print(Packed(b, e), k) == Uppers(b)[..if k < |b| then k else |b|]
  {
    hide Packed;
    hide Upper;
    hide Allowed;
    if k > 0 {
      PrintBody(b, e, k - 1);
      PackedByte(b, e, k - 1);
    }
  }

  /** One more character of the extension, printed. */
  lemma PrintedStep(b: seq<Byte>, e: seq<Byte>, k: nat)
    requires 0 < k <= |e|
    ensures Printed(b, e[..k]) == Printed(b, e[..k - 1]) + (if k == 1 then [DOT] else []) + [Upper(e[k - 1])]
  {
    hide Upper;
    assert Uppers(e[..k]) == Uppers(e[..k - 1]) + [Upper(e[k - 1])];
    if k == 1 {
      assert e[..0] == [] && Uppers(e[..0]) == [];
    }
  }

  /** And after `k` bytes of the extension. */
  lemma {:induction false} PrintPacked(b: seq<Byte>, e: seq<Byte>, k: nat)
    requires |b| <= 8 && |e| <= 3 && AllAllowed(b) && AllAllowed(e) && k <= 3
    ensures Print(Packed(b, e), 8 + k) == Printed(b, e[..if k < |e| then k else |e|])
  {
    hide Packed;
    hide Upper;
    hide Allowed;
    if k == 0 {
      PrintBody(b, e, 8);
      assert Printed(b, []) == Uppers(b);
    } else {
      hide Printed;
      PrintPacked(b, e, k - 1);
      PackedByte(b, e, 7 + k);
      if k <= |e| {
        PrintedStep(b, e, k);
      }
    }
  }

  lemma UppersAllowed(s: seq<Byte>)
    requires AllAllowed(s)
    ensures AllAllowed(Uppers(s)) && Uppers(Uppers(s)) == Uppers(s)
  {
    forall i | 0 <= i < |s|
      ensures Allowed(Uppers(s)[i]) && Upper(Uppers(s)[i]) == Uppers(s)[i]
    {
      UpperAgain(s[i]);
    }
  }

  /** Body and extension of a name put together from them. */
  lemma JoinedParts(b: seq<Byte>, e: seq<Byte>)
    requires AllAllowed(b) && AllAllowed(e)
    ensures SegmentLength(Joined(b, e)) == |Joined(b, e)|
    ensures Body(Joined(b, e)) == b && Ext(Joined(b, e)) == e
  {
    hide ExCvt;
    hide Illegal;
    hide SegmentLength;
    hide DotAt;
    var p := Joined(b, e);
    forall i | 0 <= i < |p|
      ensures p[i] > BLANK && !IsSeparator(p[i]) && (i < |b| ==> p[i] != DOT)
    {
      if i < |b| {
        assert p[i] == b[i] && Allowed(b[i]);
      } else if i > |b| {
        assert p[i] == e[i - |b| - 1] && Allowed(e[i - |b| - 1]);
      }
    }
    assert e != [] ==> p[|b|] == DOT;
    assert DotAt(p) == |b|;
  }

  /** Storing what is already in upper case stores the same. */
  lemma PackedAgain(b: seq<Byte>, e: seq<Byte>)
    requires |b| <= 8 && |e| <= 3 && AllAllowed(b) && AllAllowed(e)
    ensures Packed(Uppers(b), Uppers(e)) == Packed(b, e)
  {
    hide Upper;
    hide Allowed;
    UppersAllowed(b);
    UppersAllowed(e);
    assert Row(Uppers(b), Uppers(e)) == Row(b, e);
  }

  /** An 8.3 name survives storing, printing and parsing again exactly when it is not all blank. */
  lemma RoundTrip(s: seq<Byte>)
    requires Is83(s)
    ensures var n := Packed(Body(s), Ext(s));
            var p := Print(n, 11);
            && |p| <= 12 && SegmentLength(p) == |p|
            && (Is83(p) <==> Body(s) + Ext(s) != [])
            && (Is83(p) ==> Packed(Body(p), Ext(p)) == n)
  {
    hide Upper;
    hide Allowed;
    hide AllAllowed;
    hide Packed;
    hide Print;
    hide Body;
    hide Ext;
    var b, e := Body(s), Ext(s);
    PrintPacked(b, e, 3);
    assert e[..|e|] == e;
    UppersAllowed(b);
    UppersAllowed(e);
    JoinedParts(Uppers(b), Uppers(e));
    PackedAgain(b, e);
  }

  /** The only name lost is the lone dot: it is accepted, and leaves a blank entry. */
  lemma BlankIsDot(s: seq<Byte>)
    requires Is83(s)
    ensures Body(s) + Ext(s) == [] <==> s == [DOT]
  {
  }

  function Ascii(s: string): (b: seq<Byte>)
    ensures |b| == |s| && forall i :: 0 <= i < |s| ==> b[i] == s[i] as int % 256
  {
    seq(|s|, i requires 0 <= i < |s| => s[i] as int % 256)
  }

  lemma OneStored()
    ensures AllAllowed(Ascii("readme")) && AllAllowed(Ascii("txt"))
    ensures Packed(Ascii("readme"), Ascii("txt")) == Ascii("README  TXT")
  {
    hide Packed;
    hide Upper;
    hide Allowed;
    var b, e := Ascii("readme"), Ascii("txt");
    forall c: Byte | 0x61 <= c <= 0x7A
      ensures Allowed(c) && Upper(c) == c - 0x20
    {
      AllowedOnes(c);
      StoredAs(c);
    }
    forall i | 0 <= i < 11
      ensures Packed(b, e)[i] == Ascii("README  TXT")[i]
    {
      PackedBytes(b, e, i);
    }
  }

  lemma OnePrinted()
    ensures Printed(Ascii("readme"), Ascii("txt")) == Ascii("README.TXT")
  {
    hide Upper;
    forall c: Byte | 0x61 <= c <= 0x7A
      ensures Upper(c) == c - 0x20
    {
      AllowedOnes(c);
      StoredAs(c);
    }
    assert Uppers(Ascii("readme")) == Ascii("README");
    assert Uppers(Ascii("txt")) == Ascii("TXT");
  }

  /** One name as it is typed, stored and printed. */
  lemma OneName()
    ensures var s := Ascii("readme.txt");
            && SegmentLength(s) == |s| && Is83(s) && Packed(Body(s), Ext(s)) == Ascii("README  TXT")
            && Print(Ascii("README  TXT"), 11) == Ascii("README.TXT")
  {
    hide Packed;
    hide Allowed;
    hide SegmentLength;
    hide Body;
    hide Ext;
    hide Print;
    hide Printed;
    hide AllAllowed;
    var b, e := Ascii("readme"), Ascii("txt");
    OneStored();
    OnePrinted();
    assert Ascii("readme.txt") == Joined(b, e);
    JoinedParts(b, e);
    PrintPacked(b, e, 3);
    assert e[..|e|] == e;
  }
}

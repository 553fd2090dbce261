/**
 * The layout of one record of a table's .data file, as read_dataset decodes
 * it from the line buffer, and the matching encoder.
 *
 * Fields are decoded strictly by declared column type, left to right:
 *  - INTEGER: the bytes up to the next space, through atoi; decoding resumes
 *    after the space;
 *  - REAL: the bytes up to the next NUL, through atof; decoding resumes after
 *    the NUL. The only NUL of a line read by fgets is its terminator, so a
 *    REAL field is only meaningful as the last field of a record;
 *  - STRING: if the field starts with " or ', the C string between it and the
 *    next quote of the same kind; decoding resumes two bytes after that
 *    closing quote. A field that starts with neither quote decodes as the
 *    empty string, and decoding resumes two bytes further on.
 * Positions are 0-based indices into the buffer. atof is a parameter.
 *
 * Decoding is split the way the C loop splits it: the scan moves the `cp` and
 * `end` pointers and finds where each field's text lies (a Span), and the
 * conversion (atoi, atof, strcpy) turns the text of one span into a value.
 */
module Records {
  import opened Wrappers
  import opened Values
  import opened CText

  /** The text of a field is buf[start..stop]; the next field starts at next. */
  datatype Span = Span(start: nat, stop: nat, next: nat)

  /** Where the scan for a field of type t that starts at pos puts cp and end, or None when it runs off the buffer. */
  function ScanField(buf: string, pos: nat, t: ColType): (r: Option<Span>)
    ensures r.Some? ==> pos <= r.value.start <= r.value.stop < |buf| && r.value.next > r.value.stop
  {
    match t
    case IntType =>
      (match FindFrom(buf, pos, ' ')
       case None => None
       case Some(j) => Some(Span(pos, j, j + 1)))
    case RealType =>
      (match FindFrom(buf, pos, '\0')
       case None => None
       case Some(j) => Some(Span(pos, j, j + 1)))
    case StrType =>
      if pos >= |buf| then None
      else if buf[pos] == '"' || buf[pos] == '\'' then
        (match FindFrom(buf, pos + 1, buf[pos])
         case None => None
         case Some(j) => Some(Span(pos + 1, j, j + 2)))
      else Some(Span(pos, pos, pos + 2))
  }

  /** The spans of fields of types ts, the first starting at pos. */
  function ScanFields(buf: string, pos: nat, ts: seq<ColType>): (r: Option<seq<Span>>)
    decreases |ts|
    ensures r.Some? ==> |r.value| == |ts| && forall k :: 0 <= k < |ts| ==> r.value[k].start <= r.value[k].stop <= |buf|
  {
    if ts == [] then Some([])
    else
      match ScanField(buf, pos, ts[0])
      case None => None
      case Some(sp) =>
        match ScanFields(buf, sp.next, ts[1..])
        case None => None
        case Some(rest) => Some([sp] + rest)
  }

  /** Field i of a scan from pos: its own span, then the scan of the fields after it. */
  lemma ScanFieldsAt(buf: string, pos: nat, ts: seq<ColType>, sps: seq<Span>, i: nat)
    requires i < |ts| && |sps| == |ts|
    requires ScanFields(buf, pos, ts[i..]) == Some(sps[i..])
    ensures ScanField(buf, pos, ts[i]) == Some(sps[i])
    ensures ScanFields(buf, sps[i].next, ts[i + 1..]) == Some(sps[i + 1..])
  {
    var tail := ts[i..];
    assert tail[0] == ts[i] && tail[1..] == ts[i + 1..];
    var first := ScanField(buf, pos, ts[i]);
    assert first.Some?;
    var rest := ScanFields(buf, first.value.next, ts[i + 1..]);
    assert rest.Some?;
    assert [first.value] + rest.value == sps[i..];
    assert sps[i..][0] == sps[i] && sps[i..][1..] == sps[i + 1..];
  }

  /** The value read from the text of one span: atoi, atof, or the C string (strcpy). */
  function FieldValue(buf: string, t: ColType, sp: Span, atof: string -> real): (v: Value)
    requires sp.start <= sp.stop <= |buf|
    ensures HasType(v, t)
  {
    match t
    case IntType => Int(Atoi(buf[sp.start..sp.stop]))
    case RealType => Real(atof(buf[sp.start..sp.stop]))
    case StrType => Str(CString(buf[sp.start..sp.stop]))
  }

  function FieldValues(buf: string, ts: seq<ColType>, sps: seq<Span>, atof: string -> real): (vs: seq<Value>)
    requires |sps| == |ts| && forall k :: 0 <= k < |ts| ==> sps[k].start <= sps[k].stop <= |buf|
    ensures |vs| == |ts|
  {
    if ts == [] then [] else [FieldValue(buf, ts[0], sps[0], atof)] + FieldValues(buf, ts[1..], sps[1..], atof)
  }

  lemma {:induction false} FieldValuesAt(buf: string, ts: seq<ColType>, sps: seq<Span>, atof: string -> real, k: nat)
    requires |sps| == |ts| && forall k :: 0 <= k < |ts| ==> sps[k].start <= sps[k].stop <= |buf|
    requires k < |ts|
    ensures FieldValues(buf, ts, sps, atof)[k] == FieldValue(buf, ts[k], sps[k], atof)
  {
    if k > 0 {
      FieldValuesAt(buf, ts[1..], sps[1..], atof, k - 1);
    }
  }

  /** The row a record buffer decodes to, or None when a scan runs off the buffer. */
  function DecodeRecord(buf: string, ts: seq<ColType>, atof: string -> real): (r: Option<seq<Value>>)
    ensures r.Some? ==> |r.value| == |ts| && forall k :: 0 <= k < |ts| ==> HasType(r.value[k], ts[k])
  {
    match ScanFields(buf, 0, ts)
    case None => None
    case Some(sps) =>
      var vs := FieldValues(buf, ts, sps, atof);
      assert forall k :: 0 <= k < |ts| ==> HasType(vs[k], ts[k]) by {
        forall k | 0 <= k < |ts| ensures HasType(vs[k], ts[k]) {
          FieldValuesAt(buf, ts, sps, atof, k);
        }
      }
      Some(vs)
  }

  function TypeOf(v: Value): ColType
  {
    match v
    case Int(_) => IntType
    case Real(_) => RealType
    case Str(_) => StrType
  }

  function TypesOf(vs: seq<Value>): (ts: seq<ColType>)
    ensures |ts| == |vs|
  {
    if vs == [] then [] else [TypeOf(vs[0])] + TypesOf(vs[1..])
  }

  /** The quote a string field is written with: " unless the text holds one. */
  function QuoteFor(s: string): char
  {
    if '"' in s then '\'' else '"'
  }

  /**
   * Values this layout can carry in the middle of a record: integers, and
   * strings without NUL that avoid at least one of the two quote characters.
   */
  predicate Encodable(v: Value)
  {
    match v
    case Int(_) => true
    case Real(_) => false
    case Str(s) => '\0' !in s && !('"' in s && '\'' in s)
  }

  function EncodeField(v: Value): string
    requires Encodable(v)
  {
    match v
    case Int(n) => ShowInt(n) + " "
    case Str(s) => [QuoteFor(s)] + s + [QuoteFor(s)] + " "
  }

  function EncodeFields(vs: seq<Value>): string
    requires forall k :: 0 <= k < |vs| ==> Encodable(vs[k])
  {
    if vs == [] then [] else EncodeField(vs[0]) + EncodeFields(vs[1..])
  }

  /** Where the text of an encoded field written at pos lies. */
  function EncodedSpan(v: Value, pos: nat): (sp: Span)
    requires Encodable(v)
    ensures pos <= sp.start <= sp.stop < sp.next == pos + |EncodeField(v)|
  {
    match v
    case Int(n) => Span(pos, pos + |ShowInt(n)|, pos + |ShowInt(n)| + 1)
    case Str(s) => Span(pos + 1, pos + 1 + |s|, pos + |s| + 3)
  }

  function EncodedSpans(vs: seq<Value>, pos: nat): (sps: seq<Span>)
    requires forall k :: 0 <= k < |vs| ==> Encodable(vs[k])
    ensures |sps| == |vs|
  {
    if vs == [] then [] else [EncodedSpan(vs[0], pos)] + EncodedSpans(vs[1..], EncodedSpan(vs[0], pos).next)
  }

  /** buf holds e at position pos. */
  predicate HoldsAt(buf: string, pos: nat, e: string)
  {
    pos + |e| <= |buf| && buf[pos..pos + |e|] == e
  }

  lemma HoldsAtSplit(buf: string, pos: nat, a: string, b: string)
    requires HoldsAt(buf, pos, a + b)
    ensures HoldsAt(buf, pos, a) && HoldsAt(buf, pos + |a|, b)
  {
    assert buf[pos..pos + |a|] == (a + b)[..|a|];
    assert buf[pos + |a|..pos + |a| + |b|] == (a + b)[|a|..];
  }

  /** A buffer that holds e at pos is what comes before, then e, then what comes after. */
  lemma HoldsAtSplice(buf: string, pos: nat, e: string)
    requires HoldsAt(buf, pos, e)
    ensures buf == buf[..pos] + e + buf[pos + |e|..]
  {
    assert buf == buf[..pos] + buf[pos..pos + |e|] + buf[pos + |e|..];
  }

  lemma {:induction false} ScanEncodedInt(buf: string, pos: nat, n: int)
    requires HoldsAt(buf, pos, EncodeField(Int(n)))
    ensures ScanField(buf, pos, IntType) == Some(EncodedSpan(Int(n), pos))
  {
    var d := ShowInt(n);
    ShowIntHasNoSeparators(n);
    HoldsAtSplice(buf, pos, d + " ");
    assert buf[..pos] + (d + " ") + buf[pos + |d| + 1..] == buf[..pos] + d + [' '] + buf[pos + |d| + 1..];
    FindFromPrefix(buf[..pos], d, buf[pos + |d| + 1..], ' ');
  }

  lemma {:induction false} ScanEncodedStr(buf: string, pos: nat, s: string)
    requires Encodable(Str(s)) && HoldsAt(buf, pos, EncodeField(Str(s)))
    ensures ScanField(buf, pos, StrType) == Some(EncodedSpan(Str(s), pos))
  {
    var q := QuoteFor(s);
    assert q !in s;
    assert buf[pos] == q;
    assert buf == buf[..pos + 1] + s + [q] + buf[pos + |s| + 2..];
    FindFromPrefix(buf[..pos + 1], s, buf[pos + |s| + 2..], q);
  }

  /** The scan finds an encoded field's text where the encoder put it. */
  lemma {:induction false} ScanEncodedField(buf: string, pos: nat, v: Value)
    requires Encodable(v) && HoldsAt(buf, pos, EncodeField(v))
    ensures ScanField(buf, pos, TypeOf(v)) == Some(EncodedSpan(v, pos))
  {
    match v
    case Int(n) => ScanEncodedInt(buf, pos, n);
    case Str(s) => ScanEncodedStr(buf, pos, s);
  }

  lemma HoldsAtSlice(buf: string, pos: nat, e: string, i: nat, j: nat)
    requires HoldsAt(buf, pos, e) && i <= j <= |e|
    ensures buf[pos + i..pos + j] == e[i..j]
  {
    forall k | 0 <= k < j - i
      ensures buf[pos + i..pos + j][k] == e[i..j][k]
    {
      assert buf[pos..pos + |e|][i + k] == e[i + k];
    }
  }

  lemma {:induction false} ValueOfEncodedInt(buf: string, pos: nat, n: int, atof: string -> real)
    requires HoldsAt(buf, pos, EncodeField(Int(n)))
    ensures EncodedSpan(Int(n), pos).stop <= |buf|
    ensures FieldValue(buf, IntType, EncodedSpan(Int(n), pos), atof) == Int(n)
  {
    var d := ShowInt(n);
    var sp := EncodedSpan(Int(n), pos);
    assert sp.start == pos && sp.stop == pos + |d|;
    HoldsAtSlice(buf, pos, d + " ", 0, |d|);
    assert (d + " ")[0..|d|] == d;
    assert buf[sp.start..sp.stop] == d;
    AtoiShowInt(n);
    assert FieldValue(buf, IntType, sp, atof) == Int(Atoi(d));
  }

  lemma {:induction false} ValueOfEncodedStr(buf: string, pos: nat, s: string, atof: string -> real)
    requires Encodable(Str(s)) && HoldsAt(buf, pos, EncodeField(Str(s)))
    ensures EncodedSpan(Str(s), pos).stop <= |buf|
    ensures FieldValue(buf, StrType, EncodedSpan(Str(s), pos), atof) == Str(s)
  {
    var e := EncodeField(Str(s));
    HoldsAtSlice(buf, pos, e, 1, 1 + |s|);
    assert e[1..1 + |s|] == s;
    CStringOfNulFree(s);
  }

  /** The conversion of an encoded field's text gives the value back. */
  lemma {:induction false} ValueOfEncodedField(buf: string, pos: nat, v: Value, atof: string -> real)
    requires Encodable(v) && HoldsAt(buf, pos, EncodeField(v))
    ensures EncodedSpan(v, pos).stop <= |buf|
    ensures FieldValue(buf, TypeOf(v), EncodedSpan(v, pos), atof) == v
  {
    match v
    case Int(n) => ValueOfEncodedInt(buf, pos, n, atof);
    case Str(s) => ValueOfEncodedStr(buf, pos, s, atof);
  }

  /** xs in front of a tail, if there is one. */
  function Prefixed<T>(xs: seq<T>, r: Option<seq<T>>): Option<seq<T>>
  {
    if r.Some? then Some(xs + r.value) else None
  }

  lemma AppendAssoc<T>(a: seq<T>, b: seq<T>, c: seq<T>)
    ensures (a + b) + c == a + (b + c)
  {
  }

  lemma PrefixedCons<T>(x: T, xs: seq<T>, r: Option<seq<T>>)
    ensures Prefixed([x], Prefixed(xs, r)) == Prefixed([x] + xs, r)
  {
    if r.Some? {
      AppendAssoc([x], xs, r.value);
    }
  }

  /** ScanFields takes one field, then scans the rest after it. */
  lemma ScanFieldsStep(buf: string, pos: nat, t: ColType, ts: seq<ColType>, sp: Span)
    requires ScanField(buf, pos, t) == Some(sp)
    ensures ScanFields(buf, pos, [t] + ts) == Prefixed([sp], ScanFields(buf, sp.next, ts))
  {
    assert ([t] + ts)[0] == t && ([t] + ts)[1..] == ts;
  }

  lemma TypesOfCons(vs: seq<Value>, more: seq<ColType>)
    requires vs != []
    ensures TypesOf(vs) + more == [TypeOf(vs[0])] + (TypesOf(vs[1..]) + more)
  {
    AppendAssoc([TypeOf(vs[0])], TypesOf(vs[1..]), more);
  }

  /** The first field of a run of encoded fields, and what the scan does after it. */
  lemma ScanEncodedCons(buf: string, pos: nat, vs: seq<Value>, more: seq<ColType>)
    requires vs != [] && forall k :: 0 <= k < |vs| ==> Encodable(vs[k])
    requires HoldsAt(buf, pos, EncodeFields(vs))
    ensures HoldsAt(buf, EncodedSpan(vs[0], pos).next, EncodeFields(vs[1..]))
    ensures ScanFields(buf, pos, TypesOf(vs) + more)
         == Prefixed([EncodedSpan(vs[0], pos)], ScanFields(buf, EncodedSpan(vs[0], pos).next, TypesOf(vs[1..]) + more))
  {
    var e := EncodeField(vs[0]);
    var rest := EncodeFields(vs[1..]);
    assert EncodeFields(vs) == e + rest;
    HoldsAtSplit(buf, pos, e, rest);
    ScanEncodedField(buf, pos, vs[0]);
    TypesOfCons(vs, more);
    ScanFieldsStep(buf, pos, TypeOf(vs[0]), TypesOf(vs[1..]) + more, EncodedSpan(vs[0], pos));
  }

  /**
   * Scanning a run of encoded fields finds their texts where the encoder put
   * them, then carries on with whatever follows them.
   */
  lemma {:induction false} ScanEncoded(buf: string, pos: nat, vs: seq<Value>, more: seq<ColType>, end: nat)
    decreases |vs|
    requires forall k :: 0 <= k < |vs| ==> Encodable(vs[k])
    requires HoldsAt(buf, pos, EncodeFields(vs)) && end == pos + |EncodeFields(vs)|
    ensures ScanFields(buf, pos, TypesOf(vs) + more)
         == Prefixed(EncodedSpans(vs, pos), ScanFields(buf, end, more))
  {
    if vs == [] {
      assert TypesOf(vs) + more == more;
      var r := ScanFields(buf, end, more);
      assert r.Some? ==> [] + r.value == r.value;
    } else {
      var sp := EncodedSpan(vs[0], pos);
      var rest := EncodeFields(vs[1..]);
      ScanEncodedCons(buf, pos, vs, more);
      assert EncodeFields(vs) == EncodeField(vs[0]) + rest;
      ScanEncoded(buf, sp.next, vs[1..], more, end);
      PrefixedCons(sp, EncodedSpans(vs[1..], sp.next), ScanFields(buf, end, more));
    }
  }

  lemma {:induction false} EncodedSpansBounds(vs: seq<Value>, pos: nat)
    decreases |vs|
    requires forall k :: 0 <= k < |vs| ==> Encodable(vs[k])
    ensures forall k :: 0 <= k < |vs| ==> pos <= EncodedSpans(vs, pos)[k].start <= EncodedSpans(vs, pos)[k].stop <= pos + |EncodeFields(vs)|
  {
    if vs != [] {
      var next := EncodedSpan(vs[0], pos).next;
      EncodedSpansBounds(vs[1..], next);
      var sps := EncodedSpans(vs, pos);
      assert |EncodeFields(vs)| == |EncodeField(vs[0])| + |EncodeFields(vs[1..])|;
      forall k | 0 <= k < |vs|
        ensures pos <= sps[k].start <= sps[k].stop <= pos + |EncodeFields(vs)|
      {
        if k > 0 {
          assert sps[k] == EncodedSpans(vs[1..], next)[k - 1];
        }
      }
    }
  }

  lemma FieldValuesCons(buf: string, ts: seq<ColType>, sps: seq<Span>, atof: string -> real)
    requires ts != [] && |sps| == |ts| && forall k :: 0 <= k < |ts| ==> sps[k].start <= sps[k].stop <= |buf|
    ensures FieldValues(buf, ts, sps, atof) == [FieldValue(buf, ts[0], sps[0], atof)] + FieldValues(buf, ts[1..], sps[1..], atof)
  {
  }

  /** The first field of a run of encoded fields converts back, and the rest follows it. */
  lemma ValuesOfEncodedCons(buf: string, pos: nat, vs: seq<Value>, atof: string -> real)
    requires vs != [] && forall k :: 0 <= k < |vs| ==> Encodable(vs[k])
    requires HoldsAt(buf, pos, EncodeFields(vs))
    ensures HoldsAt(buf, EncodedSpan(vs[0], pos).next, EncodeFields(vs[1..]))
    ensures EncodedSpan(vs[0], pos).stop <= |buf|
    ensures FieldValue(buf, TypeOf(vs[0]), EncodedSpan(vs[0], pos), atof) == vs[0]
    ensures TypesOf(vs)[0] == TypeOf(vs[0]) && TypesOf(vs)[1..] == TypesOf(vs[1..])
    ensures EncodedSpans(vs, pos)[0] == EncodedSpan(vs[0], pos)
    ensures EncodedSpans(vs, pos)[1..] == EncodedSpans(vs[1..], EncodedSpan(vs[0], pos).next)
  {
    var e := EncodeField(vs[0]);
    assert EncodeFields(vs) == e + EncodeFields(vs[1..]);
    HoldsAtSplit(buf, pos, e, EncodeFields(vs[1..]));
    ValueOfEncodedField(buf, pos, vs[0], atof);
  }

  /** Converting the texts of a run of encoded fields gives the values back. */
  lemma {:induction false} ValuesOfEncoded(buf: string, pos: nat, vs: seq<Value>, atof: string -> real)
    decreases |vs|
    requires forall k :: 0 <= k < |vs| ==> Encodable(vs[k])
    requires HoldsAt(buf, pos, EncodeFields(vs))
    ensures forall k :: 0 <= k < |vs| ==> EncodedSpans(vs, pos)[k].start <= EncodedSpans(vs, pos)[k].stop <= |buf|
    ensures FieldValues(buf, TypesOf(vs), EncodedSpans(vs, pos), atof) == vs
  {
    EncodedSpansBounds(vs, pos);
    if vs != [] {
      ValuesOfEncodedCons(buf, pos, vs, atof);
      ValuesOfEncoded(buf, EncodedSpan(vs[0], pos).next, vs[1..], atof);
      FieldValuesCons(buf, TypesOf(vs), EncodedSpans(vs, pos), atof);
      assert [vs[0]] + vs[1..] == vs;
    }
  }

  /** A record decodes to the values of the spans its scan finds. */
  lemma DecodeRecordBySpans(buf: string, ts: seq<ColType>, sps: seq<Span>, vs: seq<Value>, atof: string -> real)
    requires ScanFields(buf, 0, ts) == Some(sps)
    requires FieldValues(buf, ts, sps, atof) == vs
    ensures DecodeRecord(buf, ts, atof) == Some(vs)
  {
  }

  /** The encoded fields of vs, written at the start of a buffer, scan and convert back to vs. */
  lemma EncodedPrefix(buf: string, vs: seq<Value>, more: seq<ColType>, end: nat, atof: string -> real)
    requires forall k :: 0 <= k < |vs| ==> Encodable(vs[k])
    requires HoldsAt(buf, 0, EncodeFields(vs)) && end == |EncodeFields(vs)|
    ensures ScanFields(buf, 0, TypesOf(vs) + more) == Prefixed(EncodedSpans(vs, 0), ScanFields(buf, end, more))
    ensures forall k :: 0 <= k < |vs| ==> EncodedSpans(vs, 0)[k].start <= EncodedSpans(vs, 0)[k].stop <= |buf|
    ensures FieldValues(buf, TypesOf(vs), EncodedSpans(vs, 0), atof) == vs
  {
    ScanEncoded(buf, 0, vs, more, end);
    ValuesOfEncoded(buf, 0, vs, atof);
  }

  /** A record of integers and strings reads back as the values it was written from. */
  lemma {:induction false} RoundTrip(vs: seq<Value>, tail: string, atof: string -> real)
    requires forall k :: 0 <= k < |vs| ==> Encodable(vs[k])
    ensures DecodeRecord(EncodeFields(vs) + tail, TypesOf(vs), atof) == Some(vs)
  {
    var buf := EncodeFields(vs) + tail;
    var sps := EncodedSpans(vs, 0);
    assert buf[0..|EncodeFields(vs)|] == EncodeFields(vs);
    EncodedPrefix(buf, vs, [], |EncodeFields(vs)|, atof);
    assert TypesOf(vs) + [] == TypesOf(vs);
    assert sps + [] == sps;
    DecodeRecordBySpans(buf, TypesOf(vs), sps, vs, atof);
  }

  /**
   * A REAL field takes every byte up to the line's NUL terminator, and the
   * next field would start past it, in bytes fgets did not write.
   */
  lemma {:induction false} RealFieldTakesRestOfLine(line: string, pos: nat, stale: string)
    requires '\0' !in line && pos <= |line|
    ensures ScanField(line + ['\0'] + stale, pos, RealType) == Some(Span(pos, |line|, |line| + 1))
  {
    var buf := line + ['\0'] + stale;
    assert '\0' !in line[pos..];
    assert buf == line[..pos] + line[pos..] + ['\0'] + stale;
    FindFromPrefix(line[..pos], line[pos..], stale, '\0');
  }

  lemma {:induction false} FieldValuesAppend(buf: string, ts: seq<ColType>, sps: seq<Span>, t: ColType, sp: Span, atof: string -> real)
    requires |sps| == |ts| && forall k :: 0 <= k < |ts| ==> sps[k].start <= sps[k].stop <= |buf|
    requires sp.start <= sp.stop <= |buf|
    ensures FieldValues(buf, ts + [t], sps + [sp], atof) == FieldValues(buf, ts, sps, atof) + [FieldValue(buf, t, sp, atof)]
  {
    if ts == [] {
      assert ts + [t] == [t] && sps + [sp] == [sp];
    } else {
      assert (ts + [t])[1..] == ts[1..] + [t];
      assert (sps + [sp])[1..] == sps[1..] + [sp];
      FieldValuesAppend(buf, ts[1..], sps[1..], t, sp, atof);
    }
  }

  /** An encoded run of integers and strings holds no NUL byte. */
  lemma {:induction false} EncodedHasNoNul(vs: seq<Value>)
    requires forall k :: 0 <= k < |vs| ==> Encodable(vs[k])
    ensures '\0' !in EncodeFields(vs)
  {
    if vs != [] {
      EncodedHasNoNul(vs[1..]);
      match vs[0]
      case Int(n) => ShowIntHasNoSeparators(n);
      case Str(_) =>
    }
  }

  /** A single field scans to its own span. */
  lemma ScanLastField(buf: string, pos: nat, t: ColType, sp: Span)
    requires ScanField(buf, pos, t) == Some(sp)
    ensures ScanFields(buf, pos, [t]) == Some([sp])
  {
    ScanFieldsStep(buf, pos, t, [], sp);
    assert [t] + [] == [t];
    assert [sp] + [] == [sp];
  }

  /** Where a trailing REAL field lies: from the end of the encoded fields to the NUL after its text. */
  function TrailingSpan(vs: seq<Value>, text: string): (sp: Span)
    requires forall k :: 0 <= k < |vs| ==> Encodable(vs[k])
    ensures sp.start == |EncodeFields(vs)| && sp.stop == |EncodeFields(vs)| + |text| && sp.next == sp.stop + 1
  {
    Span(|EncodeFields(vs)|, |EncodeFields(vs) + text|, |EncodeFields(vs) + text| + 1)
  }

  /** The scan of integers and strings followed by a final REAL. */
  lemma {:induction false} ScanRealLast(vs: seq<Value>, text: string, stale: string, buf: string)
    requires forall k :: 0 <= k < |vs| ==> Encodable(vs[k])
    requires '\0' !in text
    requires buf == EncodeFields(vs) + text + ['\0'] + stale
    ensures ScanFields(buf, 0, TypesOf(vs) + [RealType]) == Some(EncodedSpans(vs, 0) + [TrailingSpan(vs, text)])
  {
    var line := EncodeFields(vs) + text;
    var n := |EncodeFields(vs)|;
    var sp := TrailingSpan(vs, text);
    ConcatSlices(EncodeFields(vs), text, ['\0'], stale);
    ScanEncoded(buf, 0, vs, [RealType], n);
    EncodedHasNoNul(vs);
    RealFieldTakesRestOfLine(line, n, stale);
    ScanLastField(buf, n, RealType, sp);
    var sps := EncodedSpans(vs, 0);
    calc {
      ScanFields(buf, 0, TypesOf(vs) + [RealType]);
      Prefixed(sps, ScanFields(buf, n, [RealType]));
      Prefixed(sps, Some([sp]));
      Some(sps + [sp]);
    }
  }

  /** The first two parts of a four-part concatenation, sliced back out. */
  lemma ConcatSlices(a: string, b: string, c: string, d: string)
    ensures (a + b + c + d)[0..|a|] == a
    ensures (a + b + c + d)[|a|..|a + b|] == b
  {
    var buf := a + b + c + d;
    assert buf == a + (b + c + d);
    assert buf[|a|..] == b + (c + d);
  }

  /** The values of the spans ScanRealLast finds: the encoded ones, then atof of the trailing text. */
  lemma {:induction false} ValuesRealLast(vs: seq<Value>, text: string, stale: string, buf: string, atof: string -> real)
    requires forall k :: 0 <= k < |vs| ==> Encodable(vs[k])
    requires buf == EncodeFields(vs) + text + ['\0'] + stale
    ensures var sps := EncodedSpans(vs, 0) + [TrailingSpan(vs, text)];
      |sps| == |vs| + 1 && (forall k :: 0 <= k < |sps| ==> sps[k].start <= sps[k].stop <= |buf|) &&
      FieldValues(buf, TypesOf(vs) + [RealType], sps, atof) == vs + [Real(atof(text))]
  {
    var sp := TrailingSpan(vs, text);
    var sps := EncodedSpans(vs, 0);
    ConcatSlices(EncodeFields(vs), text, ['\0'], stale);
    ValuesOfEncoded(buf, 0, vs, atof);
    FieldValuesAppend(buf, TypesOf(vs), sps, RealType, sp, atof);
    assert FieldValue(buf, RealType, sp, atof) == Real(atof(text));
  }

  /** Integers and strings followed by a final REAL read back as written. */
  lemma {:induction false} RoundTripRealLast(vs: seq<Value>, text: string, stale: string, atof: string -> real)
    requires forall k :: 0 <= k < |vs| ==> Encodable(vs[k])
    requires '\0' !in text
    ensures DecodeRecord(EncodeFields(vs) + text + ['\0'] + stale, TypesOf(vs) + [RealType], atof)
         == Some(vs + [Real(atof(text))])
  {
    var buf := EncodeFields(vs) + text + ['\0'] + stale;
    var sps := EncodedSpans(vs, 0) + [TrailingSpan(vs, text)];
    ScanRealLast(vs, text, stale, buf);
    ValuesRealLast(vs, text, stale, buf, atof);
    DecodeRecordBySpans(buf, TypesOf(vs) + [RealType], sps, vs + [Real(atof(text))], atof);
  }
}

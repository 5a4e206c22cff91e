/**
  CGroupParser (util/cgroup_parser.cc) over the cursor helpers of util/parser_utils.h. A failed
  alternative does not move the read head back, and the model keeps that.
 */
module CGroupParser {

  /** The read head and the collected fields. */
  datatype State = State(
    pos: nat, containerId: string, runtime: string, podId: string, qos: string, service: string)

  type Outcome = (bool, State)

  // ----- cursor helpers -----

  predicate IsHexDigit(c: char) {
    '0' <= c <= '9' || 'a' <= c <= 'f' || 'A' <= c <= 'F'
  }

  predicate AllHex(s: string) {
    forall i :: 0 <= i < |s| ==> IsHexDigit(s[i])
  }

  /** The text at `pos` starts with `s`. */
  predicate Looking(name: string, pos: nat, s: string) {
    pos + |s| <= |name| && name[pos..pos + |s|] == s
  }

  /** How many of the next `count` characters are hex digits before the first that is not. */
  function HexRun(name: string, pos: nat, count: nat): (k: nat)
    ensures k <= count && (pos <= |name| ==> pos + k <= |name|)
    ensures k > 0 ==> pos + k <= |name| && AllHex(name[pos..pos + k])
    ensures k < count ==> pos + k >= |name| || !IsHexDigit(name[pos + k])
    decreases count
  {
    if count == 0 || pos >= |name| || !IsHexDigit(name[pos]) then 0
    else
      var k := HexRun(name, pos + 1, count - 1);
      assert name[pos..pos + 1 + k] == [name[pos]] + name[pos + 1..pos + 1 + k];
      1 + k
  }

  /** Index of the next `token`, or the length when there is none. */
  function TokenAt(name: string, pos: nat, token: char): (k: nat)
    requires pos <= |name|
    ensures pos <= k <= |name| && token !in name[pos..k] && (k < |name| ==> name[k] == token)
    decreases |name| - pos
  {
    if pos == |name| || name[pos] == token then pos else TokenAt(name, pos + 1, token)
  }

  // ----- the grammar, as functions of the state -----

  function SkipToken(name: string, st: State, token: char): State
    requires st.pos <= |name|
  {
    var k := TokenAt(name, st.pos, token);
    st.(pos := if k < |name| then k + 1 else k)
  }

  function Runtime(name: string, st: State, token: char): Outcome
    requires st.pos <= |name|
  {
    var k := TokenAt(name, st.pos, token);
    (k < |name|, st.(pos := if k < |name| then k + 1 else k, runtime := st.runtime + name[st.pos..k]))
  }

  function Qos(name: string, st: State): Outcome {
    if Looking(name, st.pos, "guaranteed") then (true, st.(pos := st.pos + 10, qos := st.qos + "guaranteed"))
    else if Looking(name, st.pos, "besteffort") then (true, st.(pos := st.pos + 10, qos := st.qos + "besteffort"))
    else if Looking(name, st.pos, "burstable") then (true, st.(pos := st.pos + 9, qos := st.qos + "burstable"))
    else (false, st)
  }

  function ContainerId(name: string, st: State): Outcome
    requires st.pos <= |name|
  {
    var k := HexRun(name, st.pos, 64);
    if k == 64 then (true, st.(pos := st.pos + k, containerId := st.containerId + name[st.pos..st.pos + k]))
    else (false, st.(pos := st.pos + k, containerId := ""))
  }

  function UidGroup(name: string, st: State, count: nat): Outcome
    requires st.pos <= |name|
  {
    var k := HexRun(name, st.pos, count);
    (k == count, st.(pos := st.pos + k, podId := st.podId + name[st.pos..st.pos + k]))
  }

  const GROUPS: seq<nat> := [8, 4, 4, 4, 12]

  /** The groups from `g` on. */
  function Uid(name: string, st: State, g: nat): (r: Outcome)
    requires st.pos <= |name| && g <= 5
    ensures r.1.pos <= |name| && r.1 == st.(pos := r.1.pos, podId := r.1.podId)
    ensures |r.1.podId| >= |st.podId|
    decreases 5 - g
  {
    if g == 5 then (true, st) else
      var (ok, st) := UidGroup(name, st, GROUPS[g]);
      if !ok then (false, st)
      else if GROUPS[g] == 12 then Uid(name, st, g + 1)
      else if st.pos == |name| then (false, st)
      else
        var pos := if name[st.pos] == '-' || name[st.pos] == '_' then st.pos + 1 else st.pos;
        Uid(name, st.(pos := pos, podId := st.podId + "-"), g + 1)
  }

  function PodId(name: string, st: State): (r: Outcome)
    requires st.pos <= |name|
    ensures r.1.pos <= |name| && r.1 == st.(pos := r.1.pos, podId := r.1.podId)
  {
    if !Looking(name, st.pos, "pod") then (false, st)
    else Uid(name, st.(pos := st.pos + 3), 0)
  }

  /** The optional parts of the systemd form. */
  function AfterQos(name: string, st: State): (r: State)
    requires st.pos <= |name|
    ensures r.pos <= |name|
  {
    var (ok, st) := PodId(name, SkipToken(name, st, '-'));
    if !ok then st
    else
      var (ok, st) := Runtime(name, SkipToken(name, st, '-'), ':');
      if !ok then st else ContainerId(name, st).1
  }

  function Systemd(name: string, st: State): (r: Outcome)
    requires st.pos <= |name|
    ensures r.1.pos <= |name|
  {
    if !Looking(name, st.pos, "kubepods-") then (false, st)
    else
      var (ok, st) := Qos(name, st.(pos := st.pos + 9));
      if !ok then (false, st) else (true, AfterQos(name, st))
  }

  function Cri(name: string, st: State): (r: Outcome)
    requires st.pos <= |name|
    ensures r.1.pos <= |name|
  {
    if !Looking(name, st.pos, "cri-") then (false, st)
    else
      var (ok, st) := Runtime(name, st.(pos := st.pos + 4), '-');
      if !ok then (false, st) else ContainerId(name, st)
  }

  const SUFFIX: string := ".service"

  function Service(name: string, st: State): Outcome {
    if |name| >= 8 && name[|name| - 8..] == SUFFIX then (true, st.(service := name[..|name| - 8])) else (false, st)
  }

  /** parse_cgroup: the alternatives in order, each going on from where the last one stopped. */
  function Parse(name: string): (r: Outcome) {
    var (ok, st) := Systemd(name, State(0, "", "", "", "", ""));
    if ok then (true, st) else
      var (ok, st) := Cri(name, st);
      if ok then (true, st) else
        var (ok, st) := PodId(name, st);
        if ok then (true, st) else
          var (ok, st) := ContainerId(name, st);
          if ok then (true, st) else Service(name, st)
  }

  // ----- the container id is all or nothing -----

  predicate GoodContainer(st: State) {
    st.containerId == "" || (|st.containerId| == 64 && AllHex(st.containerId))
  }

  lemma ContainerIdGood(name: string, st: State)
    requires st.pos <= |name| && st.containerId == ""
    ensures var r := ContainerId(name, st); GoodContainer(r.1) && (r.0 <==> r.1.containerId != "")
  {
    var k := HexRun(name, st.pos, 64);
    if k == 64 { assert "" + name[st.pos..st.pos + k] == name[st.pos..st.pos + k]; }
  }

  lemma AfterQosContainer(name: string, st: State)
    requires st.pos <= |name| && st.containerId == ""
    ensures GoodContainer(AfterQos(name, st))
  {
    hide ContainerId, PodId, TokenAt;
    var (ok, s1) := PodId(name, SkipToken(name, st, '-'));
    if ok {
      var (ok2, s2) := Runtime(name, SkipToken(name, s1, '-'), ':');
      if ok2 { ContainerIdGood(name, s2); }
    }
  }

  lemma SystemdContainer(name: string, st: State)
    requires st.pos <= |name| && st.containerId == ""
    ensures var r := Systemd(name, st); GoodContainer(r.1) && (!r.0 ==> r.1.containerId == "")
  {
    hide AfterQos;
    if Looking(name, st.pos, "kubepods-") {
      var (ok, s1) := Qos(name, st.(pos := st.pos + 9));
      if ok { AfterQosContainer(name, s1); }
    }
  }

  lemma CriContainer(name: string, st: State)
    requires st.pos <= |name| && st.containerId == ""
    ensures var r := Cri(name, st); GoodContainer(r.1) && (!r.0 ==> r.1.containerId == "")
  {
    hide ContainerId;
    if Looking(name, st.pos, "cri-") {
      var (ok, s1) := Runtime(name, st.(pos := st.pos + 4), '-');
      if ok { ContainerIdGood(name, s1); }
    }
  }

  /** For every input the container id ends empty or exactly 64 hex digits. */
  lemma ContainerIdWhole(name: string)
    ensures GoodContainer(Parse(name).1)
  {
    hide Systemd, Cri, PodId, ContainerId;
    var st := State(0, "", "", "", "", "");
    SystemdContainer(name, st);
    var (ok1, s1) := Systemd(name, st);
    if !ok1 {
      CriContainer(name, s1);
      var (ok2, s2) := Cri(name, s1);
      if !ok2 {
        var (ok3, s3) := PodId(name, s2);
        if !ok3 { ContainerIdGood(name, s3); }
      }
    }
  }

  // ----- what failed alternatives leave behind -----

  /** The alternative that matches a name, told from its text. */
  datatype Form = SystemdForm | CriForm | PodForm | ContainerForm | ServiceForm | NoForm

  predicate IsSystemd(name: string) {
    && Looking(name, 0, "kubepods-")
    && (Looking(name, 9, "guaranteed") || Looking(name, 9, "besteffort") || Looking(name, 9, "burstable"))
  }

  /** Where the systemd alternative stops when it fails. */
  function AfterSystemd(name: string): (p: nat)
    ensures p <= |name|
  {
    if Looking(name, 0, "kubepods-") then 9 else 0
  }

  /** The text the cri alternative takes for the runtime; empty without its prefix. */
  function CriRuntime(name: string): string {
    var p := AfterSystemd(name);
    if Looking(name, p, "cri-") then name[p + 4..TokenAt(name, p + 4, '-')] else ""
  }

  predicate IsCri(name: string) {
    var p := AfterSystemd(name);
    && Looking(name, p, "cri-")
    && var k := TokenAt(name, p + 4, '-');
    && k < |name| && HexRun(name, k + 1, 64) == 64
  }

  /** Where the cri alternative stops when it fails. */
  function AfterCri(name: string): (q: nat)
    ensures q <= |name|
  {
    var p := AfterSystemd(name);
    if !Looking(name, p, "cri-") then p else
      var k := TokenAt(name, p + 4, '-');
      if k == |name| then k else k + 1 + HexRun(name, k + 1, 64)
  }

  /** The pod alternative, tried after the other two have failed. */
  function PodAttempt(name: string): (r: Outcome)
    ensures r.1.pos <= |name|
  {
    PodId(name, State(AfterCri(name), "", CriRuntime(name), "", "", ""))
  }

  function FormOf(name: string): Form {
    if IsSystemd(name) then SystemdForm
    else if IsCri(name) then CriForm
    else if PodAttempt(name).0 then PodForm
    else if HexRun(name, PodAttempt(name).1.pos, 64) == 64 then ContainerForm
    else if |name| >= 8 && name[|name| - 8..] == SUFFIX then ServiceForm
    else NoForm
  }

  /** A failed cri alternative leaves a runtime. */
  predicate RuntimeLeft(name: string) {
    var p := AfterSystemd(name);
    Looking(name, p, "cri-") && p + 4 < |name| && name[p + 4] != '-'
  }

  /** A failed pod alternative leaves part of a uid. */
  predicate UidLeft(name: string) {
    var q := AfterCri(name);
    Looking(name, q, "pod") && q + 3 < |name| && IsHexDigit(name[q + 3])
  }

  /** No field is set but those the form is made of. */
  predicate OnlyOwnFields(f: Form, st: State) {
    && (st.qos != "" ==> f.SystemdForm?)
    && (st.service != "" ==> f.ServiceForm?)
    && (st.containerId != "" ==> f.SystemdForm? || f.CriForm? || f.ContainerForm?)
    && (st.runtime != "" ==> f.SystemdForm? || f.CriForm?)
    && (st.podId != "" ==> f.SystemdForm? || f.PodForm?)
  }

  /** Nothing is left of the alternatives that were tried before the form. */
  predicate NothingLeft(name: string) {
    match FormOf(name)
    case SystemdForm => true
    case CriForm => true
    case PodForm => !RuntimeLeft(name)
    case _ => !RuntimeLeft(name) && !UidLeft(name)
  }

  /**
    The fields of a parsed name, beside those of its form. The runtime and the uid are left over
    exactly as the text says; quality of service, container id and service never are.
   */
  predicate Leftovers(name: string, r: Outcome) {
    var (f, st) := (FormOf(name), r.1);
    && (r.0 <==> f != NoForm)
    && (st.qos != "" <==> f.SystemdForm?)
    && st.service == (if f.ServiceForm? then name[..|name| - 8] else "")
    && (st.containerId != "" ==> f.SystemdForm? || f.CriForm? || f.ContainerForm?)
    && (!f.SystemdForm? ==> st.runtime == CriRuntime(name) && (st.runtime != "" <==> RuntimeLeft(name)))
    && (!f.SystemdForm? && !f.CriForm? && !f.PodForm? ==> (st.podId != "" <==> UidLeft(name)))
    && (OnlyOwnFields(f, st) <==> NothingLeft(name))
  }

  lemma SystemdExact(name: string)
    ensures var r := Systemd(name, State(0, "", "", "", "", ""));
            && (r.0 <==> IsSystemd(name))
            && if r.0 then r.1.qos != "" && r.1.service == ""
               else r.1 == State(AfterSystemd(name), "", "", "", "", "")
  {
    hide Looking, AfterQos;
    if Looking(name, 0, "kubepods-") {
      LookingFits(name, 0, "kubepods-");
      var st := State(9, "", "", "", "", "");
      if Qos(name, st).0 {
        QosSet(name, st);
        AfterQosKeeps(name, Qos(name, st).1);
      }
    }
  }

  lemma AfterQosKeeps(name: string, st: State)
    requires st.pos <= |name|
    ensures AfterQos(name, st).qos == st.qos && AfterQos(name, st).service == st.service
  {
    hide PodId, ContainerId, TokenAt;
    var (ok, s1) := PodId(name, SkipToken(name, st, '-'));
    if ok {
      var (ok2, s2) := Runtime(name, SkipToken(name, s1, '-'), ':');
      if ok2 { ContainerIdOnly(name, s2); }
    }
  }

  lemma LookingFits(name: string, pos: nat, s: string)
    requires Looking(name, pos, s)
    ensures pos + |s| <= |name|
  {
  }

  lemma QosSet(name: string, st: State)
    requires st.pos <= |name| && Qos(name, st).0
    ensures var r := Qos(name, st).1;
            r.pos <= |name| && r.qos != "" && r == st.(pos := r.pos, qos := r.qos)
  {
  }

  lemma ContainerIdOnly(name: string, st: State)
    requires st.pos <= |name|
    ensures var (ok, st') := ContainerId(name, st);
            var k := HexRun(name, st.pos, 64);
            && (ok <==> k == 64)
            && st.pos + k <= |name|
            && st' == st.(pos := st.pos + k, containerId := st'.containerId)
            && (!ok ==> st'.containerId == "")
  {
  }

  lemma CriExact(name: string)
    ensures var r := Cri(name, State(AfterSystemd(name), "", "", "", "", ""));
            && (r.0 <==> IsCri(name))
            && if r.0
               then r.1.runtime == CriRuntime(name) && r.1.podId == "" && r.1.qos == "" && r.1.service == ""
               else r.1 == State(AfterCri(name), "", CriRuntime(name), "", "", "")
  {
    hide Looking, ContainerId, TokenAt, HexRun;
    var p := AfterSystemd(name);
    var st := State(p, "", "", "", "", "");
    if Looking(name, p, "cri-") {
      LookingFits(name, p, "cri-");
      var (ok, s1) := Runtime(name, st.(pos := p + 4), '-');
      assert "" + CriRuntime(name) == CriRuntime(name);
      if ok { ContainerIdOnly(name, s1); }
    }
  }

  /** The runtime that was read is empty exactly when the text has none. */
  lemma RuntimeLeftIff(name: string)
    ensures CriRuntime(name) != "" <==> RuntimeLeft(name)
  {
    hide Looking;
    var p := AfterSystemd(name);
    if Looking(name, p, "cri-") {
      LookingFits(name, p, "cri-");
      var k := TokenAt(name, p + 4, '-');
      if p + 4 < k { assert name[p + 4..k][0] == name[p + 4]; }
    }
  }

  lemma UidLeftIff(name: string)
    ensures PodAttempt(name).1.podId != "" <==> UidLeft(name)
  {
    hide Looking, HexRun, Uid, AfterCri;
    var q := AfterCri(name);
    var st := State(q, "", CriRuntime(name), "", "", "");
    if Looking(name, q, "pod") {
      LookingFits(name, q, "pod");
      FirstGroup(name, st.(pos := q + 3));
    }
  }

  lemma FirstGroup(name: string, st: State)
    requires st.pos <= |name| && st.podId == ""
    ensures Uid(name, st, 0).1.podId != "" <==> st.pos < |name| && IsHexDigit(name[st.pos])
  {
    hide HexRun;
    var k := HexRun(name, st.pos, 8);
    assert k > 0 <==> st.pos < |name| && IsHexDigit(name[st.pos]) by { RunStarts(name, st.pos, 8); }
    UidUnfold(name, st, 0);
  }

  lemma RunStarts(name: string, pos: nat, count: nat)
    requires count > 0
    ensures HexRun(name, pos, count) > 0 <==> pos < |name| && IsHexDigit(name[pos])
  {
  }

  /**
    For every name, valid or not, what is left of failed alternatives, and exactly when nothing
    is.
   */
  lemma Survivors(name: string)
    ensures Leftovers(name, Parse(name))
  {
    hide Looking, Systemd, Cri, PodId, ContainerId, HexRun, AfterCri, AfterSystemd, CriRuntime;
    hide IsSystemd, IsCri, RuntimeLeft, UidLeft;
    SystemdExact(name);
    var s1 := State(AfterSystemd(name), "", "", "", "", "");
    if !IsSystemd(name) {
      CriExact(name);
      RuntimeLeftIff(name);
      if !IsCri(name) {
        UidLeftIff(name);
        var (ok3, s3) := PodAttempt(name);
        if !ok3 { ContainerIdOnly(name, s3); }
      }
    }
  }

  // ----- printing a name and parsing it back -----

  predicate IsQos(qos: string) {
    qos == "guaranteed" || qos == "besteffort" || qos == "burstable"
  }

  predicate IsSeparator(sep: string) {
    sep == "" || sep == "-" || sep == "_"
  }

  /** A pod uid of 32 hex digits, its groups joined by `sep`. */
  function PrintUid(uid: string, sep: string): string
    requires |uid| == 32
  {
    uid[..8] + (sep + (uid[8..12] + (sep + (uid[12..16] + (sep + (uid[16..20] + (sep + uid[20..])))))))
  }

  /** A systemd-style cgroup name. */
  function PrintName(qos: string, uid: string, sep: string, runtime: string, cid: string): string
    requires |uid| == 32
  {
    "kubepods-" + (qos + ("-" + ("pod" + (PrintUid(uid, sep) + (".slice:cri" + ("-" + (runtime + (":" + cid))))))))
  }

  lemma LookingAt(name: string, pos: nat, s: string, rest: string)
    requires pos <= |name| && name[pos..] == s + rest
    ensures Looking(name, pos, s) && pos + |s| <= |name| && name[pos + |s|..] == rest
    ensures name[pos..pos + |s|] == s
  {
    var t := name[pos..];
    assert name[pos..pos + |s|] == t[..|s|];
    assert name[pos + |s|..] == t[|s|..];
  }

  lemma {:induction false} HexRunAt(name: string, pos: nat, h: string, rest: string)
    requires pos <= |name| && name[pos..] == h + rest && AllHex(h)
    ensures HexRun(name, pos, |h|) == |h|
    decreases |h|
  {
    if h == [] {
    } else {
      assert name[pos] == name[pos..][0] == h[0];
      assert name[pos + 1..] == name[pos..][1..] == h[1..] + rest;
      HexRunAt(name, pos + 1, h[1..], rest);
    }
  }

  lemma TokenAtExact(name: string, pos: nat, token: char, a: string, rest: string)
    requires pos <= |name| && name[pos..] == a + ([token] + rest) && token !in a
    ensures TokenAt(name, pos, token) == pos + |a| < |name|
    ensures name[pos..pos + |a|] == a && name[pos + |a| + 1..] == rest
  {
    LookingAt(name, pos, a, [token] + rest);
    LookingAt(name, pos + |a|, [token], rest);
    var k := TokenAt(name, pos, token);
    assert name[pos + |a|] == token by { assert name[pos + |a|..][0] == token; }
  }

  /** One separated uid group. */
  lemma UidStep(name: string, st: State, g: nat, h: string, sep: string, rest: string)
    requires st.pos <= |name| && g < 4 && |h| == GROUPS[g] && AllHex(h)
    requires IsSeparator(sep) && rest != "" && IsHexDigit(rest[0])
    requires name[st.pos..] == h + (sep + rest)
    ensures var st' := st.(pos := st.pos + |h| + |sep|, podId := st.podId + h + "-");
            && st'.pos <= |name| && name[st'.pos..] == rest
            && Uid(name, st, g) == Uid(name, st', g + 1)
  {
    hide HexRun, AllHex, Uid, Looking, IsSeparator;
    HexRunAt(name, st.pos, h, sep + rest);
    LookingAt(name, st.pos, h, sep + rest);
    SeparatorAt(name, st.pos + |h|, sep, rest);
    UidUnfold(name, st, g);
  }

  lemma SeparatorAt(name: string, pos: nat, sep: string, rest: string)
    requires pos <= |name| && name[pos..] == sep + rest && IsSeparator(sep) && rest != "" && IsHexDigit(rest[0])
    ensures pos < |name| && pos + |sep| <= |name| && name[pos + |sep|..] == rest
    ensures |sep| == if name[pos] == '-' || name[pos] == '_' then 1 else 0
  {
    LookingAt(name, pos, sep, rest);
    assert name[pos] == name[pos..][0] == (sep + rest)[0];
  }

  /** One turn of the loop over the groups. */
  lemma UidUnfold(name: string, st: State, g: nat)
    requires st.pos <= |name| && g < 4
    ensures var (ok, s1) := UidGroup(name, st, GROUPS[g]);
            s1.pos <= |name| && GROUPS[g] != 12 &&
            Uid(name, st, g) ==
              if !ok || s1.pos == |name| then (false, s1)
              else
                var pos := if name[s1.pos] == '-' || name[s1.pos] == '_' then s1.pos + 1 else s1.pos;
                Uid(name, s1.(pos := pos, podId := s1.podId + "-"), g + 1)
  {
    hide HexRun;
  }

  lemma LastUidGroup(name: string, st: State, h: string, rest: string)
    requires st.pos <= |name| && |h| == 12 && AllHex(h) && name[st.pos..] == h + rest
    ensures var st' := st.(pos := st.pos + 12, podId := st.podId + h);
            && st'.pos <= |name| && name[st'.pos..] == rest
            && Uid(name, st, 4) == (true, st')
  {
    hide HexRun, AllHex;
    HexRunAt(name, st.pos, h, rest);
    LookingAt(name, st.pos, h, rest);
    var st' := st.(pos := st.pos + 12, podId := st.podId + h);
    assert Uid(name, st', 5) == (true, st');
  }

  lemma UidAt(name: string, st: State, uid: string, sep: string, rest: string)
    requires st.pos <= |name| && |uid| == 32 && AllHex(uid) && IsSeparator(sep) && st.podId == ""
    requires name[st.pos..] == PrintUid(uid, sep) + rest
    ensures var st' := st.(pos := st.pos + |PrintUid(uid, sep)|, podId := PrintUid(uid, "-"));
            && st'.pos <= |name| && name[st'.pos..] == rest
            && Uid(name, st, 0) == (true, st')
  {
    hide Uid, PrintUid, AllHex, IsSeparator;
    var h0, h1, h2, h3, h4 := uid[..8], uid[8..12], uid[12..16], uid[16..20], uid[20..];
    HexGroups(uid);
    UidText(uid, sep, rest);
    var r4 := h4 + rest;
    var r3 := h3 + (sep + r4);
    var r2 := h2 + (sep + r3);
    var r1 := h1 + (sep + r2);
    UidStep(name, st, 0, h0, sep, r1);
    var s1 := st.(pos := st.pos + 8 + |sep|, podId := "" + h0 + "-");
    UidStep(name, s1, 1, h1, sep, r2);
    var s2 := s1.(pos := s1.pos + 4 + |sep|, podId := s1.podId + h1 + "-");
    UidStep(name, s2, 2, h2, sep, r3);
    var s3 := s2.(pos := s2.pos + 4 + |sep|, podId := s2.podId + h2 + "-");
    UidStep(name, s3, 3, h3, sep, r4);
    var s4 := s3.(pos := s3.pos + 4 + |sep|, podId := s3.podId + h3 + "-");
    LastUidGroup(name, s4, h4, rest);
  }

  lemma HexGroups(uid: string)
    requires |uid| == 32 && AllHex(uid)
    ensures AllHex(uid[..8]) && AllHex(uid[8..12]) && AllHex(uid[12..16]) && AllHex(uid[16..20]) && AllHex(uid[20..])
    ensures IsHexDigit(uid[8]) && IsHexDigit(uid[12]) && IsHexDigit(uid[16]) && IsHexDigit(uid[20])
  {
  }

  /** The printed uid and what follows it, group by group; its length; and the canonical form. */
  lemma UidText(uid: string, sep: string, rest: string)
    requires |uid| == 32
    ensures PrintUid(uid, sep) + rest
            == uid[..8] + (sep + (uid[8..12] + (sep + (uid[12..16] +
               (sep + (uid[16..20] + (sep + (uid[20..] + rest))))))))
    ensures |PrintUid(uid, sep)| == 32 + 4 * |sep|
    ensures ((("" + uid[..8] + "-") + uid[8..12] + "-") + uid[12..16] + "-") + uid[16..20] + "-" + uid[20..]
            == PrintUid(uid, "-")
  {
    var h0, h1, h2, h3, h4 := uid[..8], uid[8..12], uid[12..16], uid[16..20], uid[20..];
    var p3 := h3 + (sep + h4);
    var p2 := h2 + (sep + p3);
    var p1 := h1 + (sep + p2);
    assert p3 + rest == h3 + (sep + (h4 + rest)) by { Prepend(h3, sep, h4, rest); }
    assert p2 + rest == h2 + (sep + (p3 + rest)) by { Prepend(h2, sep, p3, rest); }
    assert p1 + rest == h1 + (sep + (p2 + rest)) by { Prepend(h1, sep, p2, rest); }
    Prepend(h0, sep, p1, rest);
    Canonical(h0, h1, h2, h3, h4);
  }

  lemma Prepend(h: string, sep: string, p: string, rest: string)
    ensures (h + (sep + p)) + rest == h + (sep + (p + rest))
  {
  }

  lemma Canonical(h0: string, h1: string, h2: string, h3: string, h4: string)
    ensures ((("" + h0 + "-") + h1 + "-") + h2 + "-") + h3 + "-" + h4
            == h0 + ("-" + (h1 + ("-" + (h2 + ("-" + (h3 + ("-" + h4)))))))
  {
  }

  lemma QosAt(name: string, st: State, qos: string, rest: string)
    requires st.pos <= |name| && IsQos(qos) && name[st.pos..] == qos + rest && st.qos == ""
    ensures st.pos + |qos| <= |name| && name[st.pos + |qos|..] == rest
    ensures Qos(name, st) == (true, st.(pos := st.pos + |qos|, qos := qos))
  {
    hide Looking;
    LookingAt(name, st.pos, qos, rest);
    assert name[st.pos] == qos[0] by { assert name[st.pos..][0] == qos[0]; }
    assert name[st.pos + 1] == qos[1] by { assert name[st.pos..][1] == qos[1]; }
    if qos != "guaranteed" { NotLooking(name, st.pos, "guaranteed", 0); }
    if qos == "burstable" { NotLooking(name, st.pos, "besteffort", 1); }
    assert "" + qos == qos;
  }

  lemma NotLooking(name: string, pos: nat, s: string, i: nat)
    requires i < |s| && pos + i < |name| && name[pos + i] != s[i]
    ensures !Looking(name, pos, s)
  {
    if pos + |s| <= |name| { assert name[pos..pos + |s|][i] == name[pos + i]; }
  }

  lemma SkipAt(name: string, st: State, token: char, a: string, rest: string)
    requires st.pos <= |name| && name[st.pos..] == a + ([token] + rest) && token !in a
    ensures var st' := SkipToken(name, st, token);
            st' == st.(pos := st.pos + |a| + 1) && st'.pos <= |name| && name[st'.pos..] == rest
  {
    TokenAtExact(name, st.pos, token, a, rest);
  }

  /**
    Printing a name from a QoS class, a pod uid with any of the three separators, a colon-free
    runtime and a container id, and parsing it, recovers all four, the uid in canonical form.
   */
  lemma ParsePrinted(qos: string, uid: string, sep: string, runtime: string, cid: string)
    requires IsQos(qos) && |uid| == 32 && AllHex(uid) && IsSeparator(sep)
    requires ':' !in runtime && |cid| == 64 && AllHex(cid)
    ensures var name := PrintName(qos, uid, sep, runtime, cid);
            Parse(name) == (true, State(|name|, cid, runtime, PrintUid(uid, "-"), qos, ""))
  {
    hide Uid, Qos, SkipToken, Runtime, ContainerId, Looking, PrintUid;
    var name := PrintName(qos, uid, sep, runtime, cid);
    var t5 := runtime + (":" + cid);
    var t4 := ".slice:cri" + ("-" + t5);
    var t3 := PrintUid(uid, sep) + t4;
    var t2 := "-" + ("pod" + t3);
    var st := State(0, "", "", "", "", "");
    assert name[0..] == "kubepods-" + (qos + t2);
    LookingAt(name, 0, "kubepods-", qos + t2);
    var s1 := st.(pos := 9);
    QosAt(name, s1, qos, t2);
    var s2 := s1.(pos := 9 + |qos|, qos := qos);
    assert t2 == "" + (['-'] + ("pod" + t3));
    SkipAt(name, s2, '-', "", "pod" + t3);
    var s3 := SkipToken(name, s2, '-');
    LookingAt(name, s3.pos, "pod", t3);
    var s4 := s3.(pos := s3.pos + 3);
    UidAt(name, s4, uid, sep, t4);
    var s5 := s4.(pos := s4.pos + |PrintUid(uid, sep)|, podId := PrintUid(uid, "-"));
    SkipAt(name, s5, '-', ".slice:cri", t5);
    var s6 := SkipToken(name, s5, '-');
    RuntimeAt(name, s6, ':', runtime, cid);
    var s7 := s6.(pos := s6.pos + |runtime| + 1, runtime := runtime);
    assert cid + "" == cid;
    ContainerPrefixAt(name, s7, cid, "");
  }

  lemma RuntimeAt(name: string, st: State, token: char, runtime: string, rest: string)
    requires st.pos <= |name| && name[st.pos..] == runtime + ([token] + rest) && token !in runtime && st.runtime == ""
    ensures var st' := st.(pos := st.pos + |runtime| + 1, runtime := runtime);
            Runtime(name, st, token) == (true, st') && st'.pos <= |name| && name[st'.pos..] == rest
  {
    hide TokenAt;
    TokenAtExact(name, st.pos, token, runtime, rest);
    assert "" + runtime == runtime;
  }

  // ----- the other documented forms -----

  /** cri-<runtime>-<container id>, whatever follows. */
  lemma ParsePrintedCri(runtime: string, cid: string, suffix: string)
    requires '-' !in runtime && |cid| == 64 && AllHex(cid)
    ensures var name := "cri-" + (runtime + ("-" + (cid + suffix)));
            Parse(name) == (true, State(|name| - |suffix|, cid, runtime, "", "", ""))
  {
    hide Runtime, ContainerId, Looking;
    var tail := cid + suffix;
    var name := "cri-" + (runtime + ("-" + tail));
    var st := State(0, "", "", "", "", "");
    assert name[0] == 'c' && name[0..] == name;
    NotLooking(name, 0, "kubepods-", 0);
    LookingAt(name, 0, "cri-", runtime + ("-" + tail));
    var s1 := st.(pos := 4);
    RuntimeAt(name, s1, '-', runtime, tail);
    var s2 := s1.(pos := s1.pos + |runtime| + 1, runtime := runtime);
    ContainerPrefixAt(name, s2, cid, suffix);
  }

  lemma ContainerPrefixAt(name: string, st: State, cid: string, rest: string)
    requires st.pos <= |name| && name[st.pos..] == cid + rest && |cid| == 64 && AllHex(cid) && st.containerId == ""
    ensures ContainerId(name, st) == (true, st.(pos := st.pos + 64, containerId := cid))
  {
    hide HexRun, AllHex;
    HexRunAt(name, st.pos, cid, rest);
    LookingAt(name, st.pos, cid, rest);
    assert "" + cid == cid;
  }

  /**
    A service whose name begins like a cri scope is valid, and keeps the runtime that the failed
    cri alternative read: "cri-a-x.service" is the service "cri-a-x" with runtime "a".
   */
  lemma ServiceWithRuntime(runtime: string, text: string)
    requires '-' !in runtime && text != "" && !IsHexDigit(text[0]) && text[0] != 'p'
    ensures var service := "cri-" + (runtime + ("-" + text));
            Parse(service + SUFFIX) == (true, State(|runtime| + 5, "", runtime, "", "", service))
  {
    hide Runtime, Looking, HexRun, Systemd, Cri, PodId, ContainerId;
    var tail := text + SUFFIX;
    var service := "cri-" + (runtime + ("-" + text));
    var name := service + SUFFIX;
    var st := State(0, "", "", "", "", "");
    assert name == "cri-" + (runtime + ("-" + tail)) by { CriServiceText(runtime, text); }
    assert name[0..] == name && name[0] == 'c';
    SystemdMisses(name, st);
    assert Cri(name, st) == (false, st.(pos := |runtime| + 5, runtime := runtime))
           && name[|runtime| + 5] == text[0] by {
      CriStops(name, st, runtime, tail);
    }
    var s2 := st.(pos := |runtime| + 5, runtime := runtime);
    PodMisses(name, s2);
    ContainerMisses(name, s2);
    assert name[|name| - 8..] == SUFFIX && name[..|name| - 8] == service;
  }

  lemma CriServiceText(runtime: string, text: string)
    ensures "cri-" + (runtime + ("-" + text)) + SUFFIX == "cri-" + (runtime + ("-" + (text + SUFFIX)))
  {
  }

  lemma SystemdMisses(name: string, st: State)
    requires st.pos < |name| && name[st.pos] != 'k'
    ensures Systemd(name, st) == (false, st)
  {
    NotLooking(name, st.pos, "kubepods-", 0);
  }

  lemma CriMisses(name: string, st: State)
    requires st.pos < |name| && name[st.pos] != 'c'
    ensures Cri(name, st) == (false, st)
  {
    NotLooking(name, st.pos, "cri-", 0);
  }

  lemma PodMisses(name: string, st: State)
    requires st.pos < |name| && name[st.pos] != 'p'
    ensures PodId(name, st) == (false, st)
  {
    NotLooking(name, st.pos, "pod", 0);
  }

  lemma ContainerMisses(name: string, st: State)
    requires st.pos < |name| && !IsHexDigit(name[st.pos]) && st.containerId == ""
    ensures ContainerId(name, st) == (false, st)
  {
    hide HexRun;
    NoHexRun(name, st.pos);
  }

  /** The cri alternative on a scope whose id is no container id at all. */
  lemma CriStops(name: string, st: State, runtime: string, tail: string)
    requires st == State(0, "", "", "", "", "") && name == "cri-" + (runtime + ("-" + tail))
    requires '-' !in runtime && tail != "" && !IsHexDigit(tail[0])
    ensures Cri(name, st) == (false, st.(pos := |runtime| + 5, runtime := runtime))
    ensures |name| == |runtime| + 5 + |tail| && name[|runtime| + 5] == tail[0]
  {
    hide Runtime, Looking, ContainerId;
    assert name[0..] == name;
    LookingAt(name, 0, "cri-", runtime + ("-" + tail));
    RuntimeAt(name, st.(pos := 4), '-', runtime, tail);
    var s2 := st.(pos := |runtime| + 5, runtime := runtime);
    assert name[s2.pos] == name[s2.pos..][0] == tail[0];
    ContainerMisses(name, s2);
  }

  lemma NoHexRun(name: string, pos: nat)
    requires pos < |name| && !IsHexDigit(name[pos])
    ensures HexRun(name, pos, 64) == 0
  {
  }

  /** pod<uid>, whatever follows. */
  lemma ParsePrintedPod(uid: string, sep: string, suffix: string)
    requires |uid| == 32 && AllHex(uid) && IsSeparator(sep)
    ensures var name := "pod" + (PrintUid(uid, sep) + suffix);
            Parse(name) == (true, State(|name| - |suffix|, "", "", PrintUid(uid, "-"), "", ""))
  {
    hide Uid, Looking, PrintUid, AllHex, Systemd, Cri;
    var text := PrintUid(uid, sep) + suffix;
    var name := "pod" + text;
    assert name[0] == 'p' && name[0..] == "pod" + text;
    SystemdMisses(name, State(0, "", "", "", "", ""));
    CriMisses(name, State(0, "", "", "", "", ""));
    LookingAt(name, 0, "pod", text);
    UidAt(name, State(3, "", "", "", "", ""), uid, sep, suffix);
  }

  /** A bare container id, whatever follows. */
  lemma ParsePrintedContainer(cid: string, suffix: string)
    requires |cid| == 64 && AllHex(cid)
    ensures var name := cid + suffix;
            Parse(name) == (true, State(64, cid, "", "", "", ""))
  {
    hide ContainerId, Looking;
    var name := cid + suffix;
    assert name[0..] == name && IsHexDigit(name[0]) && IsHexDigit(name[1]);
    NotLooking(name, 0, "kubepods-", 0);
    NotLooking(name, 0, "cri-", 1);
    NotLooking(name, 0, "pod", 0);
    ContainerPrefixAt(name, State(0, "", "", "", "", ""), cid, suffix);
  }
}

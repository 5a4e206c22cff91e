/** CGroupParser as an object whose methods move the read head and fill the fields. */
module CGroupParserObject {
  import opened CGroupParser

  class Parser {
    const name: string
    var pos: nat
    var containerId: string
    var runtime: string
    var podId: string
    var qos: string
    var service: string
    var valid: bool

    function View(): State reads this {
      State(pos, containerId, runtime, podId, qos, service)
    }

    /** CGroupParser::CGroupParser */
    constructor (name: string)
      ensures this.name == name && (valid, View()) == Parse(name)
      ensures GoodContainer(View()) && Leftovers(name, (valid, View()))
    {
      this.name := name;
      pos, containerId, runtime, podId, qos, service, valid := 0, "", "", "", "", "", false;
      new;
      hide Systemd, Cri, PodId, ContainerId, Service, GoodContainer, Leftovers;
      var ok := ParseSystemd();
      if !ok { ok := ParseCri(); }
      if !ok { ok := ParsePodId(); }
      if !ok { ok := ParseContainerId(); }
      if !ok { ok := ParseService(); }
      valid := ok;
      ContainerIdWhole(name);
      Survivors(name);
    }

    /** parse_match with a string: the lookahead compares character by character. */
    method ParseMatch(s: string) returns (r: bool)
      requires pos <= |name|
      modifies this`pos
      ensures r == Looking(name, old(pos), s)
      ensures pos == if r then old(pos) + |s| else old(pos)
    {
      if |name| - pos < |s| { return false; }
      var i := 0;
      while i < |s|
        invariant 0 <= i <= |s| && name[pos..pos + i] == s[..i]
      {
        if name[pos + i] != s[i] {
          NotLooking(name, pos, s, i);
          return false;
        }
        i := i + 1;
      }
      pos := pos + |s|;
      return true;
    }

    /** parse_token: consume up to and including the token; what came before it is returned. */
    method ParseToken(token: char) returns (r: bool, text: string)
      requires pos <= |name|
      modifies this`pos
      ensures var k := TokenAt(name, old(pos), token);
              && r == (k < |name|)
              && text == name[old(pos)..k]
              && pos == if r then k + 1 else k
    {
      text := "";
      while pos < |name|
        invariant old(pos) <= pos <= |name| && text == name[old(pos)..pos]
        invariant TokenAt(name, old(pos), token) == TokenAt(name, pos, token)
        decreases |name| - pos
      {
        var p := name[pos];
        pos := pos + 1;
        if p == token { return true, text; }
        text := text + [p];
      }
      return false, text;
    }

    method ParseUidGroup(count: nat) returns (r: bool)
      requires pos <= |name|
      modifies this`pos, this`podId
      ensures pos <= |name| && (r, View()) == UidGroup(name, old(View()), count)
    {
      hide HexRun, AllHex, IsHexDigit;
      ghost var start := pos;
      var i := 0;
      while i < count
        invariant 0 <= i <= count && pos == start + i <= |name|
        invariant podId == old(podId) + name[start..pos]
        invariant HexRun(name, start, count) == i + HexRun(name, pos, count - i)
      {
        HexRunStep(name, pos, count - i);
        if pos == |name| || !IsHexDigit(name[pos]) { return false; }
        assert name[start..pos + 1] == name[start..pos] + [name[pos]];
        podId := podId + [name[pos]];
        pos := pos + 1;
        i := i + 1;
      }
      HexRunStep(name, pos, 0);
      return true;
    }

    method ParseUid() returns (r: bool)
      requires pos <= |name|
      modifies this`pos, this`podId
      ensures (r, View()) == Uid(name, old(View()), 0)
    {
      hide UidGroup;
      var g := 0;
      while g < |GROUPS|
        invariant 0 <= g <= 5 && pos <= |name|
        invariant View() == old(View()).(pos := pos, podId := podId)
        invariant Uid(name, old(View()), 0) == Uid(name, View(), g)
      {
        var ok := ParseUidGroup(GROUPS[g]);
        if !ok { return false; }
        if GROUPS[g] != 12 {
          if pos == |name| { return false; }
          if name[pos] == '-' || name[pos] == '_' { pos := pos + 1; }
          podId := podId + "-";
        }
        g := g + 1;
      }
      return true;
    }

    method ParsePodId() returns (r: bool)
      requires pos <= |name|
      modifies this`pos, this`podId
      ensures (r, View()) == PodId(name, old(View()))
    {
      var ok := ParseMatch("pod");
      if !ok { return false; }
      r := ParseUid();
    }

    method ParseContainerId() returns (r: bool)
      requires pos <= |name|
      modifies this`pos, this`containerId
      ensures pos <= |name| && (r, View()) == ContainerId(name, old(View()))
    {
      hide HexRun;
      ghost var start := pos;
      var i, count := 0, 64;
      while i < count
        invariant 0 <= i <= count && pos == start + i <= |name|
        invariant containerId == old(containerId) + name[start..pos]
        invariant HexRun(name, start, count) == i + HexRun(name, pos, count - i)
      {
        HexRunStep(name, pos, count - i);
        if pos == |name| || !IsHexDigit(name[pos]) {
          containerId := "";
          return false;
        }
        assert name[start..pos + 1] == name[start..pos] + [name[pos]];
        containerId := containerId + [name[pos]];
        pos := pos + 1;
        i := i + 1;
      }
      HexRunStep(name, pos, 0);
      return true;
    }

    method ParseQos() returns (r: bool)
      requires pos <= |name|
      modifies this`pos, this`qos
      ensures pos <= |name| && (r, View()) == Qos(name, old(View()))
    {
      hide Looking;
      r := ParseMatch("guaranteed");
      if r { qos := qos + "guaranteed"; LookingInRange(name, old(pos), "guaranteed"); return; }
      r := ParseMatch("besteffort");
      if r { qos := qos + "besteffort"; LookingInRange(name, old(pos), "besteffort"); return; }
      r := ParseMatch("burstable");
      if r { qos := qos + "burstable"; LookingInRange(name, old(pos), "burstable"); return; }
    }

    method ParseRuntime(token: char) returns (r: bool)
      requires pos <= |name|
      modifies this`pos, this`runtime
      ensures pos <= |name| && (r, View()) == Runtime(name, old(View()), token)
    {
      var text: string;
      r, text := ParseToken(token);
      runtime := runtime + text;
    }

    method ParseSystemd() returns (r: bool)
      requires pos <= |name|
      modifies this`pos, this`qos, this`podId, this`runtime, this`containerId
      ensures (r, View()) == Systemd(name, old(View()))
    {
      hide Qos, PodId, Runtime, ContainerId, Looking, TokenAt;
      var ok := ParseMatch("kubepods-");
      if !ok { return false; }
      LookingInRange(name, old(pos), "kubepods-");
      ok := ParseQos();
      if !ok { return false; }
      var _, _ := ParseToken('-');
      ok := ParsePodId();
      if !ok { return true; }
      var _, _ := ParseToken('-');
      ok := ParseRuntime(':');
      if !ok { return true; }
      ok := ParseContainerId();
      return true;
    }

    method ParseCri() returns (r: bool)
      requires pos <= |name|
      modifies this`pos, this`runtime, this`containerId
      ensures (r, View()) == Cri(name, old(View()))
    {
      hide Runtime, ContainerId;
      var ok := ParseMatch("cri-");
      if !ok { return false; }
      ok := ParseRuntime('-');
      if !ok { return false; }
      r := ParseContainerId();
    }

    method ParseService() returns (r: bool)
      modifies this`service
      ensures (r, View()) == Service(name, old(View()))
    {
      if |name| >= |SUFFIX| && name[|name| - |SUFFIX|..] == SUFFIX {
        service := name[..|name| - |SUFFIX|];
        return true;
      }
      return false;
    }
  }

  lemma HexRunStep(name: string, pos: nat, count: nat)
    ensures HexRun(name, pos, count)
            == if count == 0 || pos >= |name| || !IsHexDigit(name[pos]) then 0
               else 1 + HexRun(name, pos + 1, count - 1)
  {
  }

  lemma LookingInRange(name: string, pos: nat, s: string)
    requires Looking(name, pos, s)
    ensures pos + |s| <= |name|
  {
  }
}

/** Joining the best known access point of a scan. */
module WifiMulti {
  type Int32 = x: int | -0x8000_0000 <= x < 0x8000_0000
  type Int16 = x: int | -0x8000 <= x < 0x8000

  const INT_MIN: Int32 := -0x8000_0000
  const SCAN_RUNNING := -1
  const SCAN_FAILED := -2
  const MAX_SSID := 31
  const MAX_PASSPHRASE := 64

  datatype Text = NullText | Text(chars: string)
  datatype Entry = Entry(ssid: string, passphrase: Text)
  datatype Network = Network(ssid: string, open: bool, rssi: Int32, channel: Int32, bssid: seq<int>)
  datatype Pick = Nothing | Join(entry: Entry, rssi: Int32, channel: Int32, bssid: seq<int>)
  datatype Outcome = KeepConnection | ScanIsRunning | ScanStarted | NoneMatches | Joining(pick: Pick)

  // ---------------------------------------------------------------- what to pick

  /** The entry of the list that names the network: the one added last. */
  ghost predicate Names(list: seq<Entry>, x: nat, ssid: string) {
    x < |list| && list[x].ssid == ssid && forall y | x < y < |list| :: list[y].ssid != ssid
  }

  ghost predicate Eligible(list: seq<Entry>, net: Network) {
    net.rssi > INT_MIN &&
    exists x: nat :: Names(list, x, net.ssid) && (net.open || list[x].passphrase.Text?)
  }

  /** The strongest eligible network, the earliest of equally strong ones. */
  ghost predicate IsBest(list: seq<Entry>, nets: seq<Network>, i: nat) {
    && i < |nets| && Eligible(list, nets[i])
    && (forall j | 0 <= j < |nets| && Eligible(list, nets[j]) :: nets[j].rssi <= nets[i].rssi)
    && (forall j | 0 <= j < i && Eligible(list, nets[j]) :: nets[j].rssi < nets[i].rssi)
  }

  ghost predicate IsJoin(list: seq<Entry>, nets: seq<Network>, i: nat, x: nat, pick: Pick) {
    && i < |nets| && Names(list, x, nets[i].ssid)
    && pick == Join(list[x], nets[i].rssi, nets[i].channel, nets[i].bssid)
  }

  ghost predicate RightPick(list: seq<Entry>, nets: seq<Network>, pick: Pick) {
    if pick == Nothing then forall j | 0 <= j < |nets| :: !Eligible(list, nets[j])
    else exists i: nat, x: nat :: IsBest(list, nets, i) && IsJoin(list, nets, i, x, pick)
  }

  /** There is only one right pick. */
  lemma RightPickIsUnique(list: seq<Entry>, nets: seq<Network>, p: Pick, q: Pick)
    requires RightPick(list, nets, p) && RightPick(list, nets, q)
    ensures p == q
  {
    hide Eligible;
    if p.Join? && q.Join? {
      var i: nat, x: nat :| IsBest(list, nets, i) && IsJoin(list, nets, i, x, p);
      var j: nat, y: nat :| IsBest(list, nets, j) && IsJoin(list, nets, j, y, q);
      assert nets[i].rssi == nets[j].rssi;
      assert i == j;
      assert x == y;
    }
  }

  // ---------------------------------------------------------------- the 8-bit scan result

  /** Assignment of a 16-bit count to an `int8_t`. */
  function Int8(n: Int16): (r: int)
    ensures -128 <= r < 128 && (r - n) % 256 == 0
  {
    (n + 128) % 256 - 128
  }

  /** The networks that the loop looks at. */
  function Seen(nets: seq<Network>): seq<Network>
    requires |nets| < 0x8000
  {
    if Int8(|nets|) < 0 then [] else nets[..Int8(|nets|)]
  }

  /** All of them are looked at exactly when there are at most 127. */
  lemma SeenIsAllIff(nets: seq<Network>)
    requires |nets| < 0x8000
    ensures Seen(nets) == nets <==> |nets| <= 127
  {
    if |nets| <= 127 {
      assert Int8(|nets|) == |nets|;
    } else {
      assert |Seen(nets)| <= 127;
    }
  }

  /** The pick is right for the whole scan exactly when no network past those looked at is
      eligible and stronger than every eligible one among them. */
  lemma PickIsRightIff(list: seq<Entry>, nets: seq<Network>, pick: Pick)
    requires |nets| < 0x8000 && RightPick(list, Seen(nets), pick)
    ensures RightPick(list, nets, pick) <==>
      forall j | |Seen(nets)| <= j < |nets| && Eligible(list, nets[j]) ::
        exists i | 0 <= i < |Seen(nets)| :: Eligible(list, nets[i]) && nets[j].rssi <= nets[i].rssi
  {
    hide Eligible, Names;
    var seen := Seen(nets);
    assert forall i | 0 <= i < |seen| :: seen[i] == nets[i];
    if pick.Join? {
      var i: nat, x: nat :| IsBest(list, seen, i) && IsJoin(list, seen, i, x, pick);
      assert seen[i] == nets[i];
      if RightPick(list, nets, pick) {
        var k: nat, y: nat :| IsBest(list, nets, k) && IsJoin(list, nets, k, y, pick);
        assert nets[k].rssi == nets[i].rssi;
      } else {
        assert IsJoin(list, nets, i, x, pick);
        assert !IsBest(list, nets, i);
      }
    }
  }

  // ---------------------------------------------------------------- the code

  lemma BestOf(list: seq<Entry>, front: seq<Network>, net: Network, x: int, before: Pick, after: Pick)
    requires RightPick(list, front, before)
    requires if Eligible(list, net) && (before.Join? ==> net.rssi > before.rssi)
      then 0 <= x < |list| && Names(list, x, net.ssid) && after == Join(list[x], net.rssi, net.channel, net.bssid)
      else after == before
    ensures RightPick(list, front + [net], after)
  {
    hide Eligible, Names;
    var all := front + [net];
    assert forall j | 0 <= j < |front| :: all[j] == front[j];
    if before.Join? {
      var i: nat, y: nat :| IsBest(list, front, i) && IsJoin(list, front, i, y, before);
      if after == before {
        assert IsBest(list, all, i) && IsJoin(list, all, i, y, after);
      } else {
        assert IsBest(list, all, |front|) && IsJoin(list, all, |front|, x, after);
      }
    } else if after != before {
      assert IsBest(list, all, |front|) && IsJoin(list, all, |front|, x, after);
    }
  }

  /** One round of the outer loop keeps the pick right. */
  lemma BestStep(list: seq<Entry>, nets: seq<Network>, i: nat, x: int, before: Pick, after: Pick)
    requires i < |nets| && -1 <= x < |list| && RightPick(list, nets[..i], before)
    requires x < 0 ==> after == before && forall y | 0 <= y < |list| :: list[y].ssid != nets[i].ssid
    requires x >= 0 ==> Names(list, x, nets[i].ssid)
    requires x >= 0 ==>
      if nets[i].rssi > (if before.Join? then before.rssi else INT_MIN) && (nets[i].open || list[x].passphrase.Text?)
      then after == Join(list[x], nets[i].rssi, nets[i].channel, nets[i].bssid) else after == before
    ensures RightPick(list, nets[..i + 1], after)
  {
    var old_, now := nets[..i], nets[..i + 1];
    assert now == old_ + [nets[i]];
    assert Eligible(list, nets[i]) <==>
      x >= 0 && nets[i].rssi > INT_MIN && (nets[i].open || list[x].passphrase.Text?) by {
      assert forall z: nat | Names(list, z, nets[i].ssid) && x >= 0 :: z == x;
    }
    BestOf(list, old_, nets[i], x, before, after);
  }

  class WiFiMulti {
    var apList: seq<Entry>

    constructor ()
      ensures apList == []
    {
      apList := [];
    }

    /** `addAP`; `copied` is whether the strings could be duplicated. */
    method AddAP(ssid: Text, passphrase: Text, copied: bool) returns (ok: bool)
      modifies this
      ensures ok <==> copied && ssid.Text? && 0 < |ssid.chars| <= 31
                      && (passphrase.Text? ==> |passphrase.chars| <= 64)
      ensures apList == old(apList) +
        if !ok then [] else [Entry(ssid.chars, if passphrase == Text("") then NullText else passphrase)]
    {
      if ssid.NullText? || |ssid.chars| == 0 || |ssid.chars| > MAX_SSID {
        return false;
      }
      if passphrase.Text? && |passphrase.chars| > MAX_PASSPHRASE {
        return false;
      }
      if !copied {
        return false;
      }
      var newAP := Entry(ssid.chars, NullText);
      if passphrase.Text? && |passphrase.chars| != 0 {
        newAP := newAP.(passphrase := passphrase);
      }
      apList := apList + [newAP];
      return true;
    }

    /** The selection loops of `run`. */
    method SelectBest(nets: seq<Network>, scanResult: int) returns (best: Pick)
      requires 0 <= scanResult <= |nets|
      ensures RightPick(apList, nets[..scanResult], best)
    {
      best := Nothing;
      var bestDb := INT_MIN;
      for i := 0 to scanResult
        invariant RightPick(apList, nets[..i], best)
        invariant bestDb == if best.Join? then best.rssi else INT_MIN
      {
        var x := |apList|;
        while x > 0 && apList[x - 1].ssid != nets[i].ssid
          invariant 0 <= x <= |apList|
          invariant forall y | x <= y < |apList| :: apList[y].ssid != nets[i].ssid
        {
          x := x - 1;
        }
        ghost var before := best;
        if x > 0 {
          assert Names(apList, x - 1, nets[i].ssid);
          if nets[i].rssi > bestDb {
            if nets[i].open || apList[x - 1].passphrase.Text? {
              bestDb := nets[i].rssi;
              best := Join(apList[x - 1], nets[i].rssi, nets[i].channel, nets[i].bssid);
            }
          }
        }
        BestStep(apList, nets, i, x - 1, before, best);
      }
    }

    /** `run` up to the point where it starts to connect. `connected` is the SSID of the
        current connection, `NullText` without one; `status` of the scan is negative or the
        number of networks found. */
    method Run(connected: Text, scan: Int16, nets: seq<Network>) returns (outcome: Outcome)
      requires scan >= SCAN_FAILED && |nets| == if scan < 0 then 0 else scan
      ensures outcome == KeepConnection <==>
        connected.Text? && exists x :: 0 <= x < |apList| && apList[x].ssid == connected.chars
      ensures outcome != KeepConnection ==>
        if scan < 0 || |nets| % 256 > 127 then
          outcome == if Int8(scan) == SCAN_RUNNING then ScanIsRunning else ScanStarted
        else if outcome.Joining? then outcome.pick.Join? && RightPick(apList, Seen(nets), outcome.pick)
        else outcome == NoneMatches && RightPick(apList, Seen(nets), Nothing)
    {
      if connected.Text? {
        for x := 0 to |apList|
          invariant forall y | 0 <= y < x :: apList[y].ssid != connected.chars
        {
          if connected.chars == apList[x].ssid {
            return KeepConnection;
          }
        }
      }
      var scanResult := Int8(scan);
      if scanResult == SCAN_RUNNING {
        return ScanIsRunning;
      }
      if scanResult >= 0 {
        var best := SelectBest(nets, scanResult);
        return if best.Join? then Joining(best) else NoneMatches;
      }
      return ScanStarted;
    }
  }
}

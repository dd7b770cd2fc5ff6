/** The profiler's hooks, over the real hash table and its shared data records. */
module Profiler {
  import opened CInt
  import opened Words
  import opened JenkinsHash
  import opened HashTable
  import opened CallProfile
  import opened Wrappers

  /** struct sScriptData */
  class ScriptData {
    var ulCalls: word
    var dwElapsedTime: word
    var updated: bool

    constructor (calls: word, elapsed: word)
      ensures ulCalls == calls && dwElapsedTime == elapsed && updated
    {
      ulCalls, dwElapsedTime, updated := calls, elapsed, true;
    }
  }

  /** The first n characters of a C string. */
  function Truncated(s: Key, n: nat): (t: Key)
    ensures t <= s && |t| <= n && (|t| < n ==> t == s)
  {
    if |s| <= n then s else s[..n]
  }

  // The marks that the hooks put before a tag.
  const PART: Key := [62]         // >
  const CROSS_AREA: Key := [64]   // @
  const PATHFIND: Key := [36]     // $

  class Profiler {
    var iCallDepth: int
    var iScriptCounter: word
    var emptyScript: bool
    var scriptName: array<Key>
    var liLast: array<int>
    var liLastStatistic: int
    var scriptHash: HashTable<ScriptData>
    ghost var Repr: set<object>
    const liFrequency: nat

    /** The records of the table are separate objects, outside the table's own. */
    ghost predicate Records(m: map<Key, ScriptData>)
      reads this, scriptHash
    {
      && (forall k :: k in m ==> m[k] in Repr && m[k] !in scriptHash.Repr)
      && (forall k, j :: k in m && j in m && k != j ==> m[k] != m[j])
    }

    ghost predicate Valid()
      reads this, Repr
      ensures Valid() ==> this in Repr && liFrequency > 0 && -1 <= iCallDepth < MAX_CALLDEPTH
    {
      && this in Repr && scriptName in Repr && liLast in Repr && scriptHash in Repr
      && scriptHash.Repr <= Repr && {this, scriptName, liLast} !! scriptHash.Repr
      && scriptHash.Valid() && liFrequency > 0
      && -1 <= iCallDepth < MAX_CALLDEPTH && scriptName.Length == liLast.Length == MAX_CALLDEPTH
      && (forall i :: 0 <= i < MAX_CALLDEPTH ==> |scriptName[i]| <= 16)
      && Records(scriptHash.Contents)
    }

    ghost function Stats(): (t: Table)
      reads this, scriptHash, scriptHash.Contents.Values
    {
      map k | k in scriptHash.Contents :: Stat(scriptHash.Contents[k].ulCalls, scriptHash.Contents[k].dwElapsedTime)
    }

    ghost function Now(): (v: View)
      reads this, Repr
      requires Valid()
      ensures v.WellFormed()
    {
      View(iCallDepth, scriptName[..], liLast[..], iScriptCounter, emptyScript, Stats())
    }

    /** The part of HookRunScript that sets up the globals. */
    constructor (frequency: nat, now: int)
      requires frequency > 0
      ensures Valid() && fresh(Repr) && liFrequency == frequency
      ensures Now().depth == -1 && Now().counter == 0 && Now().stats == map[]
    {
      var names: array<Key> := new Key[MAX_CALLDEPTH](_ => []);
      var last := new int[MAX_CALLDEPTH](_ => 0);
      var t := new HashTable<ScriptData>(2048);
      iCallDepth, iScriptCounter, emptyScript := -1, 0, false;
      scriptName, liLast, scriptHash := names, last, t;
      liFrequency, liLastStatistic := frequency, now;
      Repr := {this, names, last, t} + t.Repr;
    }

    /** The common part of the entry hooks. */
    method EnterScript(name: Key, now: int)
      requires Valid() && |name| <= 16
      modifies this, scriptName, liLast
      ensures Valid() && Repr == old(Repr) && Now() == Entered(old(Now()), name, now)
    {
      hide HashTable.Valid;
      if iCallDepth < MAX_CALLDEPTH - 1 {
        iCallDepth := iCallDepth + 1;
      }
      emptyScript := false;
      scriptName[iCallDepth] := name;
      iScriptCounter := Sum(iScriptCounter, 1);
      liLast[iCallDepth] := now;
    }

    method MyRunScript(str: Option<Key>, now: int)
      requires Valid()
      modifies this, scriptName, liLast
      ensures Valid() && Repr == old(Repr)
      ensures Now() == match str
                       case Some(s) => Entered(old(Now()), Truncated(s, 16), now)
                       case None => old(Now()).(empty := true)
    {
      match str
      case Some(s) => EnterScript(Truncated(s, 16), now);
      case None => emptyScript := true;
    }

    method MyRunScriptPart(str: Option<Key>, now: int)
      requires Valid()
      modifies this, scriptName, liLast
      ensures Valid() && Repr == old(Repr)
      ensures Now() == match str
                       case Some(s) => Entered(old(Now()), [62] + Truncated(s, 15), now)
                       case None => old(Now()).(empty := true)
    {
      match str
      case Some(s) => EnterScript(PART + Truncated(s, 15), now);
      case None => emptyScript := true;
    }

    method MyCrossArea(tag: Option<Key>, now: int)
      requires Valid()
      modifies this, scriptName, liLast
      ensures Valid() && Repr == old(Repr)
      ensures Now() == match tag
                       case Some(s) => Entered(old(Now()), [64] + Truncated(s, 15), now)
                       case None => old(Now()).(empty := true)
    {
      match tag
      case Some(s) => EnterScript(CROSS_AREA + Truncated(s, 15), now);
      case None => emptyScript := true;
    }

    method MyPathfind(tag: Option<Key>, now: int)
      requires Valid()
      modifies this, scriptName, liLast
      ensures Valid() && Repr == old(Repr)
      ensures Now() == match tag
                       case Some(s) => Entered(old(Now()), [36] + Truncated(s, 15), now)
                       case None => old(Now()).(empty := true)
    {
      match tag
      case Some(s) => EnterScript(PATHFIND + Truncated(s, 15), now);
      case None => emptyScript := true;
    }

    /** FlushStatistics, without the printing and the totals that are only printed. */
    method FlushStatistics()
      requires Valid()
      modifies scriptHash.Contents.Values
      ensures Valid() && Now() == old(Now())
      ensures forall k :: k in scriptHash.Contents ==> !scriptHash.Contents[k].updated
    {
      hide HashTable.Valid;
      var visits := scriptHash.Enumerate();
      for i := 0 to |visits|
        invariant Valid() && Now() == old(Now())
        invariant forall n :: 0 <= n < i ==> !visits[n].1.updated
      {
        visits[i].1.updated := false;
      }
    }

    method FlushIfDue(current: int, later: int)
      requires Valid()
      modifies this`liLastStatistic, scriptHash.Contents.Values
      ensures Valid() && Now() == old(Now())
      ensures liLastStatistic
           == if FlushDue(old(liLastStatistic), current, liFrequency) then later else old(liLastStatistic)
    {
      var dwStatisticMsec := Div((current - liLastStatistic) * 1000, liFrequency) % SPACE;
      if dwStatisticMsec > 10000 {
        liLastStatistic := later;
        FlushStatistics();
      }
    }

    /** One more call in an existing record. */
    method CountAgain(name: Key, scriptData: ScriptData, elapsed: word)
      requires Valid() && name in scriptHash.Contents && scriptHash.Contents[name] == scriptData
      modifies scriptData
      ensures Valid() && Now() == old(Now()).(stats := Counted(old(Stats()), name, elapsed))
    {
      hide HashTable.Valid;
      scriptData.dwElapsedTime := Sum(scriptData.dwElapsedTime, elapsed);
      scriptData.ulCalls := Sum(scriptData.ulCalls, 1);
      scriptData.updated := true;
      assert Stats() == Counted(old(Stats()), name, elapsed);
    }

    /** Puts a record into the table: a new one, or the one that is there already. */
    method Enroll(name: Key, scriptData: ScriptData)
      requires Valid() && |name| <= 16
      requires if name in scriptHash.Contents then scriptHash.Contents[name] == scriptData else scriptData !in Repr
      modifies Repr
      ensures Valid() && fresh(Repr - old(Repr) - {scriptData})
      ensures Now() == old(Now()).(stats := old(Stats())[name := Stat(scriptData.ulCalls, scriptData.dwElapsedTime)])
      ensures liLastStatistic == old(liLastStatistic) && scriptName == old(scriptName) && liLast == old(liLast)
      ensures scriptData.ulCalls == old(scriptData.ulCalls) && scriptData.dwElapsedTime == old(scriptData.dwElapsedTime)
    {
      hide HashTable.Valid;
      var before := scriptHash.Insert(name, scriptData);
      Repr := Repr + scriptHash.Repr + {scriptData};
      assert Stats() == old(Stats())[name := Stat(scriptData.ulCalls, scriptData.dwElapsedTime)];
    }

    /** Finds the record of a script and counts one more call in it, or makes a new record. */
    method Record(name: Key, elapsed: word) returns (scriptData: ScriptData)
      requires Valid() && |name| <= 16
      modifies scriptHash.Contents.Values
      ensures Valid()
      ensures if name in scriptHash.Contents then scriptHash.Contents[name] == scriptData else fresh(scriptData)
      ensures if name in scriptHash.Contents then Now() == old(Now()).(stats := Counted(old(Stats()), name, elapsed))
              else Now() == old(Now()) && scriptData.ulCalls == 1 && scriptData.dwElapsedTime == elapsed
    {
      hide HashTable.Valid;
      var found := scriptHash.Lookup(name);
      match found
      case None =>
        scriptData := new ScriptData(1, elapsed);
      case Some(d) =>
        scriptData := d;
        CountAgain(name, d, elapsed);
    }

    /** Finds or makes the record of a script, and counts one call. */
    method Count(name: Key, elapsed: word)
      requires Valid() && |name| <= 16
      modifies Repr
      ensures Valid() && fresh(Repr - old(Repr))
      ensures Now() == old(Now()).(stats := Counted(old(Stats()), name, elapsed))
      ensures liLastStatistic == old(liLastStatistic) && emptyScript == old(emptyScript)
      ensures scriptName == old(scriptName) && liLast == old(liLast)
    {
      hide HashTable.Valid;
      var scriptData := Record(name, elapsed);
      Enroll(name, scriptData);
    }

    /** `current` and `later` are what the two counter readings give. */
    method StopTimer(current: int, later: int)
      requires Valid() && (emptyScript || iCallDepth >= 0)
      modifies Repr
      ensures Valid() && fresh(Repr - old(Repr))
      ensures Now() == if old(emptyScript) then old(Now()) else Stopped(old(Now()), current, liFrequency)
    {
      hide Counted, Div, HashTable.Valid;
      if emptyScript { return; }
      var dwPerfElapsed := Div((current - liLast[iCallDepth]) * 1000000, liFrequency) % SPACE;
      Count(scriptName[iCallDepth], dwPerfElapsed);
      FlushIfDue(current, later);
      if iCallDepth > -1 {
        iCallDepth := iCallDepth - 1;
      }
    }
  }
}

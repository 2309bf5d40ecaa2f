/** The leader-key statics and their matching loops. */
module LeaderKey {
  import opened Wrappers
  import opened Leader

  lemma ZeroNext(s: seq<byte>, k: nat)
    requires k <= |s|
    ensures UntilZero(s[k..]) == if k == |s| || s[k] == 0 then [] else [s[k]] + UntilZero(s[k + 1..])
  {
    if k < |s| { assert s[k..][1..] == s[k + 1..]; }
  }

  class Matcher {
    const entries: array<Entry>
    const buffer: array<byte>
    var bufLen: nat
    var active: bool
    var lastKeyMs: u32
    var resolvedKey: byte
    var resolvedMod: byte
    var resolvedFlag: bool

    ghost predicate Valid()
      reads this, entries
    {
      && entries.Length == MAX_ENTRIES && buffer.Length == MAX_SEQ && bufLen <= MAX_SEQ
      && forall i :: 0 <= i < MAX_ENTRIES ==> |entries[i].sequence| == MAX_SEQ
    }

    ghost function Configured(): Table
      requires Valid()
      reads this, entries
    {
      entries[..]
    }

    ghost function View(): State
      requires Valid()
      reads this, entries, buffer
    {
      State(active, buffer[..bufLen], lastKeyMs, resolvedKey, resolvedMod, resolvedFlag)
    }

    constructor ()
      ensures Valid() && fresh(entries) && fresh(buffer) && !active && !resolvedFlag
    {
      entries := new Entry[MAX_ENTRIES](_ => NO_ENTRY);
      buffer := new byte[MAX_SEQ](_ => 0);
      bufLen, active, lastKeyMs, resolvedKey, resolvedMod, resolvedFlag := 0, false, 0, 0, 0, false;
    }

    /** An index past the table is ignored. */
    method Configure(index: nat, entry: Entry)
      requires Valid() && |entry.sequence| == MAX_SEQ
      modifies entries
      ensures Valid() && Configured() ==
                         if index < MAX_ENTRIES then old(Configured())[index := entry] else old(Configured())
    {
      if index < MAX_ENTRIES { entries[index] := entry; }
    }

    method SeqLen(i: nat) returns (len: nat)
      requires Valid() && i < MAX_ENTRIES
      ensures len == |Keys(entries[i])| && len <= MAX_SEQ && Keys(entries[i]) == entries[i].sequence[..len]
    {
      hide UntilZero;
      var s := entries[i].sequence;
      len := 0;
      assert s[0..] == s;
      while len < MAX_SEQ && s[len] != 0
        invariant 0 <= len <= MAX_SEQ && UntilZero(s) == s[..len] + UntilZero(s[len..])
      {
        ZeroNext(s, len);
        assert s[..len] + [s[len]] == s[..len + 1];
        len := len + 1;
      }
      ZeroNext(s, len);
    }

    /** The first `bufLen` keys of entry `i` are those typed. */
    method StartsLikeBuffer(i: nat) returns (same: bool)
      requires Valid() && i < MAX_ENTRIES
      ensures same <==> entries[i].sequence[..bufLen] == buffer[..bufLen]
    {
      for j := 0 to bufLen
        invariant entries[i].sequence[..j] == buffer[..j]
      {
        if entries[i].sequence[j] != buffer[j] {
          assert entries[i].sequence[..bufLen][j] != buffer[..bufLen][j];
          return false;
        }
      }
      return true;
    }

    method BufferIsPrefixOfLonger() returns (longer: bool)
      requires Valid()
      ensures longer == SomeContinues(Configured(), buffer[..bufLen])
    {
      ghost var typed := buffer[..bufLen];
      for i := 0 to MAX_ENTRIES
        invariant forall k :: 0 <= k < i ==> !Continues(entries[k], typed)
      {
        if entries[i].result != 0 {
          var len := SeqLen(i);
          if len > bufLen {
            var same := StartsLikeBuffer(i);
            assert Keys(entries[i])[..bufLen] == entries[i].sequence[..bufLen];
            if same {
              assert Continues(Configured()[i], typed);
              return true;
            }
          }
        }
      }
      return false;
    }

    method Match(deferOnPrefix: bool)
      requires Valid()
      modifies this`resolvedKey, this`resolvedMod, this`resolvedFlag, this`active
      ensures Valid() && View() == TryMatch(Configured(), old(View()), deferOnPrefix)
    {
      if deferOnPrefix {
        var longer := BufferIsPrefixOfLonger();
        if longer { return; }
      }
      ghost var t, typed := Configured(), buffer[..bufLen];
      for i := 0 to MAX_ENTRIES
        invariant forall k :: 0 <= k < i ==> !Spells(t[k], typed)
        invariant View() == old(View())
      {
        if entries[i].result != 0 {
          var len := SeqLen(i);
          if len == bufLen {
            var same := StartsLikeBuffer(i);
            if same {
              assert Spells(t[i], typed) && FirstMatch(t, typed) == Some(i);
              resolvedKey, resolvedMod, resolvedFlag, active := entries[i].result, entries[i].resultMod, true, false;
              return;
            }
          }
        }
      }
    }

    method Begin(now: u32)
      requires Valid()
      modifies this
      ensures Valid() && View() == Start(old(View()), now)
    {
      active, bufLen, lastKeyMs, resolvedFlag := true, 0, now, false;
    }

    method FeedKey(keycode: byte, now: u32) returns (absorbed: bool)
      requires Valid()
      modifies this, buffer
      ensures Valid() && (View(), absorbed) == Feed(Configured(), old(View()), keycode, now)
    {
      if !active || keycode == 0 { return false; }
      if bufLen < MAX_SEQ {
        buffer[bufLen] := keycode;
        bufLen := bufLen + 1;
        lastKeyMs := now;
        assert buffer[..bufLen] == old(buffer[..bufLen]) + [keycode];
        Match(true);
        return true;
      }
      active, bufLen := false, 0;
      return false;
    }

    method Beat(now: u32) returns (hit: bool)
      requires Valid()
      modifies this
      ensures Valid() && (View(), hit) == Leader.Tick(Configured(), old(View()), now)
    {
      if resolvedFlag { return true; }
      if !active { return false; }
      if Elapsed(now, lastKeyMs) >= TIMEOUT_MS {
        if bufLen > 0 { Match(false); }
        active, bufLen := false, 0;
        return resolvedFlag;
      }
      return false;
    }

    /** Hand the result over and forget it. */
    method Consume() returns (key: byte, keyMod: byte)
      requires Valid()
      modifies this`resolvedKey, this`resolvedMod, this`resolvedFlag
      ensures Valid() && key == old(resolvedKey) && keyMod == old(resolvedMod)
      ensures View() == old(View()).(key := 0, keyMod := 0, resolved := false)
    {
      key, keyMod := resolvedKey, resolvedMod;
      resolvedKey, resolvedMod, resolvedFlag := 0, 0, false;
    }
  }
}

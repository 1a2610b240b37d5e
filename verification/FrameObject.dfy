/**
 Writing a frame into a fresh POSIX shared-memory object, where any system call can fail. Names and
 objects are kept apart: unlinking takes a name away, and an object that is open stays.
 */
module FrameObject {

  import opened Wrappers
  import opened Channels
  import opened Octets
  import opened Sequences

  type Name = seq<byte>
  type Inode = nat

  const SLASH: byte := 0x2f
  const MAX_NAME_BYTES := 31
  const MAX_OFFSET := 0x7fff_ffff_ffff_ffff

  datatype FrameError = InvalidInput | System

  datatype Unlinked = Removed | Missing | Refused

  /** A name every platform takes: a slash, no other slash, no NUL, at most 31 bytes. */
  predicate Portable(name: Name) {
    name != [] && name[0] == SLASH && SLASH !in name[1..] && |name| <= MAX_NAME_BYTES && 0 !in name
  }

  /** The names and objects of a system. Any call can be refused, unless the system is sound. */
  class Namespace {
    const sound: bool
    var names: map<Name, Inode>
    var objects: map<Inode, seq<Channel>>

    constructor (sound: bool)
      ensures names == map[] && objects == map[] && this.sound == sound
    {
      this.sound := sound;
      names, objects := map[], map[];
    }

    /** Every name is bound to an object. */
    ghost predicate Valid()
      reads this
    {
      forall n :: n in names ==> names[n] in objects
    }

    method Unlink(name: Name) returns (status: Unlinked)
      modifies this`names
      ensures status == Removed ==> name in old(names) && names == old(names) - {name}
      ensures status == Missing ==> name !in old(names) && names == old(names)
      ensures status == Refused ==> names == old(names) && !sound
    {
      var refused: bool :| sound ==> !refused;
      if refused {
        return Refused;
      }
      if name !in names {
        return Missing;
      }
      names := names - {name};
      status := Removed;
    }

    /** `shm_open` with `O_CREAT | O_EXCL`: a fresh empty object under a name that has none. */
    method OpenExclusive(name: Name) returns (fd: Option<Inode>)
      modifies this
      ensures fd == None ==> names == old(names) && objects == old(objects)
      ensures sound ==> (fd.Some? <==> name !in old(names))
      ensures fd.Some? ==>
                name !in old(names) && fd.value !in old(objects) &&
                names == old(names)[name := fd.value] && objects == old(objects)[fd.value := []]
    {
      var refused: bool :| sound ==> !refused;
      if refused || name in names {
        return None;
      }
      var inode := FreshInode();
      names := names[name := inode];
      objects := objects[inode := []];
      fd := Some(inode);
    }

    method FreshInode() returns (inode: Inode)
      ensures inode !in objects
    {
      inode := 0;
      ghost var below: set<Inode> := {};
      while inode in objects
        invariant below <= objects.Keys && |below| == inode
        invariant forall i :: i in below ==> i < inode
        decreases |objects.Keys| - inode
      {
        below := below + {inode};
        SubsetSize(below, objects.Keys);
        inode := inode + 1;
      }
    }

    /** Sizes the object, filling with zeros. */
    method Truncate(fd: Inode, size: nat) returns (ok: bool)
      requires fd in objects && objects[fd] == []
      modifies this`objects
      ensures ok ==> fd in objects && |objects[fd]| == size && objects == old(objects)[fd := objects[fd]]
      ensures !ok ==> objects == old(objects) && !sound
    {
      var refused: bool :| sound ==> !refused;
      if refused {
        return false;
      }
      var zeros := seq(size, _ => 0 as Channel);
      objects := objects[fd := zeros];
      ok := true;
    }

    /** Maps the object, copies the frame in and unmaps it; the mapping or its removal can fail. */
    method CopyMapped(fd: Inode, pixels: seq<Channel>, swap: bool) returns (ok: bool)
      requires fd in objects && |objects[fd]| == |pixels|
      requires swap ==> |pixels| % 4 == 0
      modifies this`objects
      ensures objects.Keys == old(objects).Keys
      ensures forall i :: i in objects && i != fd ==> objects[i] == old(objects)[i]
      ensures ok ==> objects[fd] == if swap then Swapped(pixels) else pixels
      ensures sound ==> ok
    {
      var refused: bool :| sound ==> !refused;
      if refused {
        return false;
      }
      var content := objects[fd];
      var out := new Channel[|pixels|](i requires 0 <= i < |content| => content[i]);
      if swap {
        SwapInto(pixels, out);
        assert out[..] == out[..4 * (|pixels| / 4)];
        assert Swapped(pixels)[..4 * (|pixels| / 4)] == Swapped(pixels);
      } else {
        for k := 0 to |pixels|
          invariant objects == old(objects)
          invariant out[..k] == pixels[..k]
        {
          out[k] := pixels[k];
        }
        assert out[..] == out[..|pixels|] && pixels[..|pixels|] == pixels;
      }
      objects := objects[fd := out[..]];
      var unmapped: bool :| sound ==> unmapped;
      ok := unmapped;
    }

    method Fill(fd: Inode, pixels: seq<Channel>, swap: bool) returns (r: Result<(), FrameError>)
      requires fd in objects && objects[fd] == []
      requires swap ==> |pixels| % 4 == 0
      modifies this`objects
      ensures objects.Keys == old(objects).Keys
      ensures forall i :: i in objects && i != fd ==> objects[i] == old(objects)[i]
      ensures r.Success? ==> objects[fd] == if swap then Swapped(pixels) else pixels
      ensures sound && |pixels| <= MAX_OFFSET ==> r.Success?
    {
      if |pixels| > MAX_OFFSET {
        return Failure(InvalidInput);
      }
      var sized := Truncate(fd, |pixels|);
      if !sized {
        return Failure(System);
      }
      var copied := CopyMapped(fd, pixels, swap);
      r := if copied then Success(()) else Failure(System);
    }

    /** What writing a frame leaves behind, whichever calls fail. `cleaned` is whether the unlink that
        follows a failed fill worked. */
    method WriteFrame(name: Name, pixels: seq<Channel>, swap: bool)
      returns (r: Result<(), FrameError>, ghost cleaned: bool)
      requires Valid()
      modifies this
      ensures Valid()
      // Nothing is attempted with what cannot be a frame or a name.
      ensures (swap && |pixels| % 4 != 0) || pixels == [] ||
              name == [] || name[0] != 0x2f || 0x2f in name[1..] || 0 in name || |name| > 31 ==>
                r == Failure(InvalidInput) && names == old(names) && objects == old(objects)
      // Nothing else stands in the way of a sound system.
      ensures sound && !(swap && |pixels| % 4 != 0) && 0 < |pixels| <= 0x7fff_ffff_ffff_ffff &&
              0 < |name| <= 31 && name[0] == 0x2f && 0x2f !in name[1..] && 0 !in name ==>
                r.Success? && cleaned
      // Success: the name is a new object's, with exactly the frame in it.
      ensures r.Success? ==>
                name in names && names[name] !in old(objects) &&
                objects[names[name]] == (if swap then Swapped(pixels) else pixels) &&
                |objects[names[name]]| == |pixels|
      // Failure: the name is nobody's, or still an object's from before.
      ensures r.Failure? && cleaned ==> name !in names || (name in old(names) && names[name] == old(names)[name])
      // A cleanup that fails is the one way a half-written object stays.
      ensures !cleaned ==> r.Failure? && name in names && names[name] !in old(objects)
      // Nobody else's name or object changes.
      ensures forall n :: n != name ==> (n in names <==> n in old(names)) && (n in names ==> names[n] == old(names)[n])
      ensures forall i :: i in old(objects) ==> i in objects && objects[i] == old(objects)[i]
    {
      cleaned := true;
      if swap && |pixels| % 4 != 0 {
        return Failure(InvalidInput), true;
      }
      if pixels == [] || !Portable(name) {
        return Failure(InvalidInput), true;
      }
      var stale := Unlink(name);
      var fd := OpenExclusive(name);
      if fd.None? {
        return Failure(System), true;
      }
      r := Fill(fd.value, pixels, swap);
      if r.Failure? {
        var removed := Unlink(name);
        cleaned := removed != Refused;
      }
    }
  }
}

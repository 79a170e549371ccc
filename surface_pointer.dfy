/** `Surface::SurfacePointer`: how a wrapper gives back its claim on a native surface. */
module SurfacePointer {
  import opened Sdl

  /** `dontfree?`: the first 32-bit word of the record (its flags) has `SDL_DONTFREE` set. */
  predicate IsDontFree(ptr: NativeSurface)
    reads ptr
  {
    DontFree(ptr.flags)
  }

  /** One `release` of a live surface: a `SDL_DONTFREE` surface only loses a reference
      (`dec_ref`), any other goes through `SDL_FreeSurface`. */
  function ReleaseOnce(o: Ownership): (r: Ownership)
    requires !o.freed
    ensures r.flags == o.flags
    ensures r.refcount == o.refcount - 1
    ensures DontFree(o.flags) ==> !r.freed
    ensures !DontFree(o.flags) ==> (r.freed <==> o.refcount <= 1)
  {
    if DontFree(o.flags) then DecRefEffect(o) else FreeSurfaceEffect(o)
  }

  /** Calling `SDL_FreeSurface` alone on a `SDL_DONTFREE` surface would leave its
      reference count untouched, which is why `release` decrements it itself. */
  lemma FreeSurfaceKeepsDontFreeCount(o: Ownership)
    requires !o.freed && DontFree(o.flags)
    ensures FreeSurfaceEffect(o).refcount == o.refcount
    ensures ReleaseOnce(o).refcount == o.refcount - 1
  {
  }

  /** `k` wrappers aliasing one surface, each releasing once, in any order. */
  function ReleaseTimes(o: Ownership, k: nat): (r: Ownership)
    requires !o.freed && k <= o.refcount
    ensures r.flags == o.flags
    ensures r.refcount == o.refcount - k
    ensures r.freed <==> 0 < k && k == o.refcount && !DontFree(o.flags)
    decreases k
  {
    if k == 0 then o else ReleaseOnce(ReleaseTimes(o, k - 1))
  }

  /** N wrappers holding the N references of an owned surface free it exactly
      once, on the last release; a `SDL_DONTFREE` surface is never freed. */
  lemma AliasedReleases(o: Ownership, k: nat)
    requires !o.freed && 1 <= k <= o.refcount
    ensures !ReleaseTimes(o, k - 1).freed
    ensures ReleaseTimes(o, k).freed <==> k == o.refcount && !DontFree(o.flags)
    ensures ReleaseTimes(o, o.refcount).refcount == 0
  {
  }

  /** `SurfacePointer.release`: nothing for a null pointer; `dec_ref` for a
      `SDL_DONTFREE` surface; `SDL_FreeSurface` otherwise. */
  method Release(ptr: NativeSurface?)
    requires ptr != null ==> !ptr.freed
    modifies ptr
    ensures ptr != null ==> ptr.OwnershipState() == ReleaseOnce(old(ptr.OwnershipState()))
    ensures ptr != null ==>
              ptr.calls == old(ptr.calls) + [if DontFree(old(ptr.flags)) then DecRefCall else FreeCall]
    ensures ptr != null ==>
              ptr.locked == old(ptr.locked) && ptr.pixels == old(ptr.pixels) && ptr.clip == old(ptr.clip)
  {
    if ptr != null {
      if IsDontFree(ptr) {
        ptr.DecRef();
      } else {
        ptr.FreeSurface();
      }
    }
  }
}

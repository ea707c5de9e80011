/**
 * The object slot of the virtual machine (mirrored_object.msg.h): a
 * RwMutexedObject owns at most one Object, and typed access to it goes
 * through dynamic_cast; a MirroredObject forwards every access to the
 * RwMutexedObject it holds. The class hierarchy behind dynamic_cast is
 * abstract: every object carries the set of class names it is an instance
 * of, its own class and all of its bases.
 */
module MirroredObjects {
  import opened Wrappers

  type ClassName = string

  /** A failed CHECK. */
  datatype VmError = CheckFailed(what: string)

  /** An object of the virtual machine, known only by the classes it is an instance of. */
  class Object {
    const classes: set<ClassName>

    constructor(classes: set<ClassName>)
      ensures this.classes == classes
    {
      this.classes := classes;
    }
  }

  /** dynamic_cast<T*>(p) != nullptr: p points to an object that is a T. */
  predicate IsA(p: Object?, t: ClassName) {
    p != null && t in p.classes
  }

  /** The size_t range. */
  const SizeModulus: int := 0x1_0000_0000_0000_0000
  type Size = x: int | 0 <= x < SizeModulus

  /** A raw `char*`, as an address; 0 is the null pointer. */
  type Address = nat

  /** A block of host memory. */
  class HostMemBuffer {
    var size: Size
    var data: Address

    constructor()
      ensures size == 0 && data == 0
    {
      size, data := 0, 0;
    }

    /** __Init__: sets the size and the data pointer, and nothing else. */
    method Init(size: Size, data: Address)
      modifies this
      ensures this.size == size && this.data == data
    {
      this.size := size;
      this.data := data;
    }
  }

  /** A block of CUDA device memory. */
  class CudaMemBuffer {
    var size: Size
    var data: Address

    constructor()
      ensures size == 0 && data == 0
    {
      size, data := 0, 0;
    }

    /** __Init__: sets the size and the data pointer, and nothing else. */
    method Init(size: Size, data: Address)
      modifies this
      ensures this.size == size && this.data == data
    {
      this.size := size;
      this.data := data;
    }
  }

  /**
   * RwMutexedObject: the owner of the object slot (`object_ptr`, a
   * unique_ptr). Has and Get bind a reference to the pointee before the
   * cast; on an empty slot that reference is to no object, and the model
   * takes the null pointer reaching dynamic_cast as the outcome.
   */
  class RwMutexedObject {
    var objectPtr: Object?

    constructor()
      ensures objectPtr == null
    {
      objectPtr := null;
    }

    /** has_object: the slot is not empty. */
    predicate HasObject()
      reads this
    {
      objectPtr != null
    }

    /** object(): the held object; the slot must not be empty. */
    function GetObject(): (o: Object)
      reads this
      requires HasObject()
      ensures o == objectPtr
    {
      objectPtr
    }

    /** Has<T>: the slot holds an object that is a T; an empty slot holds no T. */
    function Has(t: ClassName): (b: bool)
      reads this
      ensures b ==> HasObject()
      ensures b <==> HasObject() && t in GetObject().classes
    {
      IsA(objectPtr, t)
    }

    /** Get<T>: the held object when it is a T; otherwise the CHECK fails. */
    function Get(t: ClassName): (r: Result<Object, VmError>)
      reads this
      ensures r.Success? <==> Has(t)
      ensures r.Success? ==> r.value == GetObject() && t in r.value.classes
    {
      if IsA(objectPtr, t) then Success(objectPtr) else Failure(CheckFailed("obj != nullptr"))
    }

    /** Mut<T>: as Get<T>, for an object the caller may change; the slot is left as it was. */
    method Mut(t: ClassName) returns (r: Result<Object, VmError>)
      ensures r.Success? <==> Has(t)
      ensures r.Success? ==> r.value == GetObject() && t in r.value.classes
    {
      if !IsA(objectPtr, t) {
        return Failure(CheckFailed("object != nullptr"));
      }
      return Success(objectPtr);
    }

    /** reset_object(obj): the slot now owns `obj`. */
    method ResetObjectTo(obj: Object?)
      modifies this
      ensures objectPtr == obj
    {
      objectPtr := obj;
    }

    /** reset_object(): the slot is empty afterwards. */
    method ResetObject()
      modifies this
      ensures !HasObject()
    {
      ResetObjectTo(null);
    }

    /**
     * Init<T>: the CHECK fails when the slot already holds a T, and then the
     * slot is untouched; otherwise (empty, or holding an object of another
     * class) the slot receives a new T, of the classes `classes`, which is
     * returned.
     */
    method Init(t: ClassName, classes: set<ClassName>) returns (r: Result<Object, VmError>)
      requires t in classes
      modifies this
      ensures old(Has(t)) <==> r.Failure?
      ensures r.Failure? ==> objectPtr == old(objectPtr)
      ensures r.Success? ==> fresh(r.value) && r.value.classes == classes && objectPtr == r.value
      ensures r.Success? ==> Has(t) && Get(t) == Success(r.value)
    {
      if IsA(objectPtr, t) {
        return Failure(CheckFailed("object == nullptr"));
      }
      var created := new Object(classes);
      ResetObjectTo(created);
      return Success(created);
    }
  }

  /** MirroredObject: every object access goes to the RwMutexedObject it holds. */
  class MirroredObject {
    const rwMutexedObject: RwMutexedObject

    constructor()
      ensures fresh(rwMutexedObject) && !rwMutexedObject.HasObject()
    {
      rwMutexedObject := new RwMutexedObject();
    }

    predicate HasObject()
      reads this, rwMutexedObject
    {
      rwMutexedObject.HasObject()
    }

    function GetObject(): (o: Object)
      reads this, rwMutexedObject
      requires HasObject()
      ensures o == rwMutexedObject.objectPtr
    {
      rwMutexedObject.GetObject()
    }

    function Has(t: ClassName): (b: bool)
      reads this, rwMutexedObject
      ensures b <==> rwMutexedObject.Has(t)
      ensures b <==> HasObject() && t in GetObject().classes
    {
      rwMutexedObject.Has(t)
    }

    function Get(t: ClassName): (r: Result<Object, VmError>)
      reads this, rwMutexedObject
      ensures r == rwMutexedObject.Get(t)
      ensures r.Success? <==> Has(t)
    {
      rwMutexedObject.Get(t)
    }

    method Mut(t: ClassName) returns (r: Result<Object, VmError>)
      ensures r.Success? <==> rwMutexedObject.Has(t)
      ensures r.Success? ==> r.value == rwMutexedObject.GetObject()
    {
      r := rwMutexedObject.Mut(t);
    }

    method Init(t: ClassName, classes: set<ClassName>) returns (r: Result<Object, VmError>)
      requires t in classes
      modifies rwMutexedObject
      ensures old(Has(t)) <==> r.Failure?
      ensures r.Failure? ==> rwMutexedObject.objectPtr == old(rwMutexedObject.objectPtr)
      ensures r.Success? ==> fresh(r.value) && r.value.classes == classes && rwMutexedObject.objectPtr == r.value
      ensures r.Success? ==> Has(t) && Get(t) == Success(r.value)
    {
      r := rwMutexedObject.Init(t, classes);
    }

    method ResetObjectTo(obj: Object?)
      modifies rwMutexedObject
      ensures rwMutexedObject.objectPtr == obj
    {
      rwMutexedObject.ResetObjectTo(obj);
    }

    method ResetObject()
      modifies rwMutexedObject
      ensures !HasObject()
    {
      rwMutexedObject.ResetObject();
    }
  }
}

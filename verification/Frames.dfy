/** The two register layouts of the kernel and the field-by-field copies between them. */
module Frames {
  import opened Words

  /** `regs_t`: the frame kept in a task slot. */
  datatype TaskRegs = TaskRegs(
    eax: word, ebx: word, ecx: word, edx: word, esi: word, edi: word, esp: word, ebp: word,
    eip: word, fs: word, gs: word, ds: word, es: word, ss: word, cs: word, eflags: word)

  /** `int_regs_t`: the frame an interrupt pushes, in the order it is pushed. */
  datatype IntRegs = IntRegs(
    gs: word, fs: word, es: word, ss: word, ds: word, edi: word, esi: word, ebp: word,
    esp: word, ebx: word, edx: word, ecx: word, eax: word, eip: word, cs: word, eflags: word)

  const ZERO_REGS := TaskRegs(0, 0, 0, 0, 0, 0, 0, 0, 0, 0, 0, 0, 0, 0, 0, 0)

  /** The copy-out of an interrupt frame into a task slot; the restoring copy undoes it. */
  function Save(r: IntRegs): (t: TaskRegs)
    ensures Restore(t) == r
  {
    TaskRegs(
      fs := r.fs, gs := r.gs, ds := r.ds, ss := r.ss, es := r.es, cs := r.cs,
      edi := r.edi, esi := r.esi, ebp := r.ebp, esp := r.esp,
      ebx := r.ebx, edx := r.edx, ecx := r.ecx, eax := r.eax,
      eflags := r.eflags, eip := r.eip)
  }

  /** The copy-back of a task slot into the interrupt frame. */
  function Restore(t: TaskRegs): IntRegs {
    IntRegs(
      fs := t.fs, gs := t.gs, es := t.es, ss := t.ss, ds := t.ds, cs := t.cs,
      edi := t.edi, esi := t.esi, ebp := t.ebp, esp := t.esp,
      ebx := t.ebx, edx := t.edx, ecx := t.ecx, eax := t.eax,
      eflags := t.eflags, eip := t.eip)
  }

  lemma SaveRestore(t: TaskRegs)
    ensures Save(Restore(t)) == t
  {}

  /** Both copies keep every register under its own name. */
  lemma SameNames(t: TaskRegs)
    ensures var r := Restore(t);
            && r.eax == t.eax && r.ebx == t.ebx && r.ecx == t.ecx && r.edx == t.edx
            && r.esi == t.esi && r.edi == t.edi && r.esp == t.esp && r.ebp == t.ebp
            && r.eip == t.eip && r.eflags == t.eflags && r.cs == t.cs && r.ds == t.ds
            && r.es == t.es && r.ss == t.ss && r.fs == t.fs && r.gs == t.gs
  {}
}

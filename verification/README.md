# Face-recognition attendance: a verified model

The system is a kiosk attendance tracker. A browser camera page sends a
frame to a Node backend. The backend finds the main face with the SCRFD
detector (letterboxing, anchor decoding, greedy non-maximum suppression,
mapping back to the image), crops it, reads 106 landmarks, and places the
crop on a 112×112 canvas. It turns the face into an L2-normalised ArcFace
embedding and matches that embedding by cosine similarity against the
stored embeddings of active employees. If the match reaches 0.6 it
records an ENTRADA or SALIDA that alternates per employee.

Administrators sign in with a bearer token. They manage employees and
their photographs, generate embeddings for the photographs, and list and
export the attendance history as CSV. The React frontend holds:

- an application shell that guards the protected sections;
- a navigation bar;
- the sign-in form's validation;
- the camera page's 30-second per-employee cooldown;
- the employee list cache;
- the filters of the employee and attendance pages;
- a browser-side landmark descriptor and matcher.

The model is pure Dafny, one module per source concern:

- **Vectors, RealArith and Text** are shared helpers.
- **Backend:** ChwTensor, Boxes, Nms, ScrfdDecode, FaceDetection, FaceEmbedding, Recognition, Store, Constants, Attendance, EmployeeService, Auth.
- **Frontend:** EmbeddingsClient, FaceDetectionHook, CameraPage, EmployeesHook, EmployeesPage, AttendancePage, AppShell, LoginPage.

**Foreign code becomes parameters.** Model inference, image decoding and drawing, `Math.sqrt`, `Math.exp`, `toISOString`, JWT and bcrypt are all parameters of the functions that use them:

- one `ModelRun` describes what the detector and landmark models output for an image;
- `sqrt`, `sigmoid` and `iso` are function-typed arguments;
- `verify`, `sign` and `matches` stand for the token and hash libraries.

Properties that need facts about `sqrt` assume `IsSqrt(sqrt)`.

**The database is a `Store.Db` value.** It holds users by id and the image, embedding and attendance tables in insertion order. Each service call maps one such value to the next.

Arithmetic is exact (`real`), not IEEE-754 float32.

Some behaviour of the code is easy to miss, and the model follows it:

- **The second landmark layout is dead code.** `runLandmarks` tests for the interleaved layout with the same length, 212, that the split-layout branch has already accepted. Only the split layout is ever decoded (`FaceDetection.DecodeLandmarks`).
- **Detection runs twice.** `computeEmbeddingFromImage` runs face detection again on the buffer it receives. Its callers pass it the aligned crop, so a recognition or enrolment succeeds only if a face is also found in that crop. `Attendance.RecognizeAndRecord` and `EmployeeService.Outcome` take both detector runs as inputs.
- **The frontend `cosineSimilarity` repeats the backend's.** frontend/src/services/embeddings.ts:139-162 is the same function as backend/src/services/recognition_service.ts:87-110, so `EmbeddingsClient` reuses `Recognition.CosineSimilarity`.

## Model

| member | source | states |
|---|---|---|
| ChwTensor.Normalize | backend/src/services/face_detection_service.ts:134-136 | (p − 127.5)/128 lies strictly inside (−1, 1) and is negative exactly for channel values below 128 |
| ChwTensor.NormalizeChw | backend/src/services/face_detection_service.ts:116-145 | the output has 3·W·H values; pixel (y,x) is stored at y·W+x in the R plane, W·H+y·W+x in G and 2·W·H+y·W+x in B, each normalised |
| Boxes.Area | backend/src/services/face_detection_service.ts:236-237 | a box's clamped area is never negative |
| Boxes.Iou | backend/src/services/face_detection_service.ts:229-242 | iou lies in [0,1], is 0 when the union is not positive or the boxes are disjoint, and otherwise times the union equals the intersection |
| Boxes.IntersectionBounds | backend/src/services/face_detection_service.ts:235-239 | the intersection is non-negative, at most either area and at most the union, and 0 for disjoint boxes |
| Boxes.IouSymmetric | backend/src/services/face_detection_service.ts:229-242 | iou(a,b) = iou(b,a) |
| Boxes.IouSelf | backend/src/services/face_detection_service.ts:229-242 | a box of positive area has iou 1 with itself |
| Nms.Insert | backend/src/services/face_detection_service.ts:251 | one insertion step of the stable descending sort adds exactly that box |
| Nms.SortByScore | backend/src/services/face_detection_service.ts:251 | the sorted copy is a permutation of the input |
| Nms.InsertSorted | backend/src/services/face_detection_service.ts:251 | insertion keeps a list in non-increasing score order |
| Nms.SortByScoreSorted | backend/src/services/face_detection_service.ts:251 | the sorted copy is in non-increasing score order |
| Nms.SortedHeadIsMax | backend/src/services/face_detection_service.ts:251 | the head of the sorted copy has the maximum score of the input |
| Nms.SortedHeadIsFirstMax | backend/src/services/face_detection_service.ts:251 | because the sort is stable, the head is the earliest input box of maximum score |
| Nms.Survivors | backend/src/services/face_detection_service.ts:258-262 | the boxes left after one pass are exactly those whose iou with the kept box does not exceed the threshold |
| Nms.Greedy | backend/src/services/face_detection_service.ts:254-263 | the loop keeps at most the input and, for a non-empty input, keeps its head first |
| Nms.Suppress | backend/src/services/face_detection_service.ts:247-266 | nms returns no more boxes than it is given and is non-empty iff its input is |
| Nms.GreedySubsequence | backend/src/services/face_detection_service.ts:254-263 | the kept boxes are an order-preserving subsequence of the sorted list |
| Nms.GreedyPairwise | backend/src/services/face_detection_service.ts:254-263 | any two kept boxes have iou at most the threshold, so an overlap exactly at the threshold survives |
| Nms.GreedyCovers | backend/src/services/face_detection_service.ts:254-263 | every input box is kept or overlaps beyond the threshold a kept box scoring at least as high |
| Nms.CoveringWitness | backend/src/services/face_detection_service.ts:259-260 | a covered box yields the kept box that explains it |
| Nms.SuppressSelection | backend/src/services/face_detection_service.ts:247-266 | the result is a subsequence of the score-sorted input, sorted by score, drawn from the input |
| Nms.SuppressHead | backend/src/services/face_detection_service.ts:251-256 | the first kept box has the maximum input score and is the earliest such box |
| Nms.SuppressGuarantees | backend/src/services/face_detection_service.ts:254-263 | kept boxes overlap pairwise by at most the threshold, and every dropped box is covered by a kept box |
| ScrfdDecode.OutputNamesDistinct | backend/src/services/face_detection_service.ts:283-296 | the six output names of the three strides are pairwise distinct |
| ScrfdDecode.DecodeAnchors | backend/src/services/face_detection_service.ts:318-347 | the decoded boxes are exactly the anchor boxes whose sigmoid score reaches the threshold |
| ScrfdDecode.DecodeStride | backend/src/services/face_detection_service.ts:300-347 | a stride with a missing tensor contributes nothing; every box reaches the threshold |
| ScrfdDecode.DecodeOutputs | backend/src/services/face_detection_service.ts:275-351 | the candidates are those of strides 8, 16 and 32; none are produced without score tensors; all reach the threshold |
| ScrfdDecode.AnchorCentreInCell | backend/src/services/face_detection_service.ts:327-338 | anchor i sits in column cell mod gridW and row cell div gridW of cell i div 2, at the cell centre |
| ScrfdDecode.CellCentreInside | backend/src/services/face_detection_service.ts:315-338 | the centre of every grid cell lies strictly inside the input |
| ScrfdDecode.AnchorPairShareCentre | backend/src/services/face_detection_service.ts:327-338 | the two anchors of a cell share their centre |
| ScrfdDecode.AnchorBoxEnclosesCentre | backend/src/services/face_detection_service.ts:322-346 | with non-negative distances, the decoded box encloses the anchor centre |
| FaceDetection.Half | backend/src/services/face_detection_service.ts:168-169 | Math.floor(d/2) is the integer r with r ≤ d/2 < r+1 |
| FaceDetection.MakeLetterbox | backend/src/services/face_detection_service.ts:149-169 | one scale for both sides, min(W/iw, H/ih), so the aspect ratio is kept; newW and newH are the rounded scaled sides and one of them fills the canvas; dx = floor((W−newW)/2) and dy likewise, so the image is centred with any odd pixel of padding right or below and stays inside; resizeRatio is 1/scale |
| FaceDetection.FromCanvasToCanvas | backend/src/services/face_detection_service.ts:181-186 | mapping a point back with resizeRatio and the offsets undoes the letterbox placement |
| FaceDetection.BackMap | backend/src/services/face_detection_service.ts:531-555 | the returned box has x1,y1 ≥ 0 and x2 ≤ width, y2 ≤ height, and keeps the score; each corner is the mapped-back corner when that lies inside the image, and exactly 0 (top-left) or the image width/height (bottom-right) when it falls outside |
| FaceDetection.CropRect | backend/src/services/face_detection_service.ts:357-376 | the crop is x = max(0, ⌊x1⌋), y = max(0, ⌊y1⌋), w = max(1, min(canvas width, ⌊x2⌋) − x), h = max(1, min(canvas height, ⌊y2⌋) − y); so it starts at x,y ≥ 0, is at least one pixel each way, and stays inside the canvas unless the one-pixel floor pushes it out |
| FaceDetection.DecodeLandmarks | backend/src/services/face_detection_service.ts:404-442 | a 212-value output gives 106 points scaled by the input size; any other length gives the "Formato de salida inesperado" error |
| FaceDetection.SplitLayout | backend/src/services/face_detection_service.ts:410-424 | point i takes x from output[i] and y from output[106+i] |
| FaceDetection.AlignPlacement | backend/src/services/face_detection_service.ts:449-466 | the crop is centred (2·dx+newW = 112, 2·dy+newH = 112), its longer side is 112, and its aspect ratio is kept |
| FaceDetection.AlignScale | backend/src/services/face_detection_service.ts:449-466 | scaling by the smaller ratio keeps both sides positive, within 112 and in proportion, and fills 112 along one side |
| FaceDetection.DetectMainFace | backend/src/services/face_detection_service.ts:486-571 | no face iff no raw box reaches the threshold; otherwise the landmark error, or a face whose box is the first box of the suppressed list (the top score) mapped back through the letterbox into the image, whose crop is that box's crop of the detector canvas placed by AlignPlacement, and whose landmarks are the decoded landmark output |
| FaceDetection.DetectAndAlignFace | backend/src/services/face_detection_service.ts:579-595 | with the default thresholds: null iff no candidate, and a found face scores at least 0.5 |
| FaceEmbedding.PackAlignedTensor | backend/src/services/face_embedding_service.ts:47-69 | the aligned tensor has 3·112·112 entries in R, G, B planes, row-major, each normalised |
| FaceEmbedding.EmbeddingNorm | backend/src/services/face_embedding_service.ts:121-125 | the norm is never 0: it is sqrt of the sum of squares when that is positive, and exactly 1 when it is 0 |
| FaceEmbedding.L2Normalize | backend/src/services/face_embedding_service.ts:127-130 | the output has the input's length and each component times the norm is the raw component |
| FaceEmbedding.L2NormalizeZero | backend/src/services/face_embedding_service.ts:125 | the all-zero vector is returned unchanged |
| FaceEmbedding.L2NormalizeUnit | backend/src/services/face_embedding_service.ts:121-130 | a non-zero vector comes out with sum of squares 1 |
| FaceEmbedding.L2NormalizeIdempotent | backend/src/services/face_embedding_service.ts:121-130 | normalising a normalised vector changes nothing |
| FaceEmbedding.ComputeEmbeddingFromImage | backend/src/services/face_embedding_service.ts:80-133 | fails when detection on its input finds nothing or the model output is missing; otherwise returns the normalised model output |
| Recognition.CosineSimilarity | backend/src/services/recognition_service.ts:87-110 | 0 on length mismatch, empty vectors or a zero norm; otherwise the dot product over the product of norms |
| Recognition.CosineZeroVector | backend/src/services/recognition_service.ts:102-107 | a zero vector has similarity 0 with anything, in either order |
| Recognition.CosineSymmetric | backend/src/services/recognition_service.ts:87-110 | the similarity is symmetric |
| Recognition.CosineSelf | backend/src/services/recognition_service.ts:87-110 | a non-zero vector has similarity 1 with itself |
| Recognition.CosineBounded | backend/src/services/recognition_service.ts:87-110 | the similarity lies in [−1, 1] |
| Recognition.Scan | backend/src/services/recognition_service.ts:46-62 | the loop has no best iff no similarity is positive; otherwise it holds the first candidate of highest similarity |
| Recognition.BestMatch | backend/src/services/recognition_service.ts:40-68 | an empty corpus gives null; a match has confidence ≥ threshold and > 0 and is the first maximum |
| Recognition.BestMatchExists | backend/src/services/recognition_service.ts:40-68 | a match exists iff some similarity is positive and the highest one reaches the threshold |
| Recognition.ActiveCandidates | backend/src/services/recognition_service.ts:23-38 | the candidates are exactly the stored embeddings whose owner is active |
| Recognition.FindBestMatch | backend/src/services/recognition_service.ts:18-69 | a match belongs to an active owner, reaches the threshold and is positive; with no active owner there is none |
| Recognition.MatchFromCorpus | backend/src/services/recognition_service.ts:49-62 | the matched owner and confidence are those of some candidate |
| Store.ImageOwner | backend/src/services/recognition_service.ts:31-37 | the owner found belongs to an image with that id; none means no image has it |
| Store.UserImages | backend/src/services/employee_service.ts:155-158 | a user's images are exactly the image rows owned by that user |
| Store.JoinOwners | backend/src/services/recognition_service.ts:23-38 | every embedding row whose image and user exist joins with its own vector and that user's name, area and active flag; every joined entry comes from such a row; at most one entry per row |
| Store.StoredEmbeddings | backend/src/services/recognition_service.ts:23-38 | the stored embeddings are exactly the embedding rows whose image and user exist, each joined with its owner |
| Constants.IsValidRol | backend/src/utils/constants.ts:29-31 | valid iff ADMIN or EMPLEADO |
| Constants.IsValidAttendanceType | backend/src/utils/constants.ts:33-35 | valid iff ENTRADA or SALIDA |
| Constants.IsValidExceptionType | backend/src/utils/constants.ts:37-39 | valid iff VACACION, INCAPACIDAD or PERMISO |
| Constants.ValidatorsCaseSensitive | backend/src/utils/constants.ts:13-35 | matching is exact: "entrada", "Salida", " ENTRADA", "admin" and "permiso" are rejected |
| Attendance.LatestKind | backend/src/services/attendance_service.ts:192-195 | none iff the employee has no event; otherwise the kind of their event stored last, with no later event of theirs |
| Attendance.NextKind | backend/src/services/attendance_service.ts:197-200 | always a valid type: SALIDA after an ENTRADA, ENTRADA after a SALIDA or with no history |
| Attendance.AreaOrDefault | backend/src/services/attendance_service.ts:224 | an absent or empty area shows "Sin área"; any other area is kept |
| Attendance.RecognizeAndRecord | backend/src/services/attendance_service.ts:150-230 | a detector error is an error; no face gives "No se detectó rostro"; after an embedding, in order: no match gives "Rostro no reconocido", a missing owner "Empleado no encontrado", an inactive one "Empleado inactivo", all without writing; otherwise the reply names the matched employee with the match confidence, and the one appended row alternates with their previous kind |
| Attendance.StaleLookupUnreachable | backend/src/services/attendance_service.ts:163-189 | with one database snapshot the matched employee always exists and is active, so "Empleado no encontrado" and "Empleado inactivo" are never returned |
| Attendance.LatestAfterAppend | backend/src/services/attendance_service.ts:192-200 | after an event is appended, it is the employee's latest |
| Attendance.RecognitionsAlternate | backend/src/services/attendance_service.ts:192-218 | two consecutive recognitions of the same employee record one ENTRADA and one SALIDA |
| Attendance.FirstRecognitionIsEntry | backend/src/services/attendance_service.ts:197-200 | an employee without history is recorded as ENTRADA |
| Attendance.RecordAttendance | backend/src/services/attendance_service.ts:77-124 | the type is checked before the lookup, then existence, then activity; success appends the row and returns its view |
| Attendance.SelectRows | backend/src/services/attendance_service.ts:33-51 | a row is selected iff its employee exists, the name contains the fragment and the timestamp is within the given bounds |
| Attendance.SelectRowsKeepsCount | backend/src/services/attendance_service.ts:33-51 | a selected row occurs in the selection as often as it is stored |
| Attendance.InsertNewestFirst | backend/src/services/attendance_service.ts:64 | inserting adds exactly that row |
| Attendance.SortNewestFirst | backend/src/services/attendance_service.ts:64 | ordering is a permutation |
| Attendance.InsertNewestFirstSorted | backend/src/services/attendance_service.ts:64 | insertion keeps newest-first order |
| Attendance.SortNewestFirstSorted | backend/src/services/attendance_service.ts:64 | the ordered rows are newest first |
| Attendance.ToView | backend/src/services/attendance_service.ts:67-74 | a view copies id, type, timestamp and confidence, with the employee's name and area or "Sin área" |
| Attendance.ToViews | backend/src/services/attendance_service.ts:67-74 | one view per row, in order |
| Attendance.SelectedRows | backend/src/services/attendance_service.ts:53-65 | every returned row has an existing employee |
| Attendance.GetAll | backend/src/services/attendance_service.ts:32-75 | one view per selected row |
| Attendance.GetAllSelects | backend/src/services/attendance_service.ts:32-75 | getAll returns every selected row as often as it is stored and nothing else, newest first |
| Attendance.Percent | backend/src/services/attendance_service.ts:136 | the confidence cell ends in % and holds no comma or line break |
| Attendance.CsvFields | backend/src/services/attendance_service.ts:131-137 | five fields in the header's order: name, area, type, the ISO time and the rounded percentage |
| Attendance.CsvLines | backend/src/services/attendance_service.ts:130-138 | one line per record |
| Attendance.CsvLineAt | backend/src/services/attendance_service.ts:130-138 | line i is record i's fields joined by commas |
| Attendance.ExportCsv | backend/src/services/attendance_service.ts:126-141 | the export starts with the header line |
| Attendance.ExportCsvRoundTrip | backend/src/services/attendance_service.ts:129-140 | splitting on line breaks gives the header and one line per record, and splitting a line on commas gives back the record's five fields |
| EmployeeService.ParseActive | backend/src/services/employee_service.ts:78 | as written: inactive exactly for the string "false"; absent, any other string and a JSON boolean all mean active |
| EmployeeService.ParseActiveFormRoundTrip | backend/src/services/employee_service.ts:78 | the multipart form's `String(activo)` reads back as the flag |
| EmployeeService.ParseActiveJsonFalse | backend/src/services/employee_service.ts:99-108 | a JSON `false` reads as active under the code, inactive under the intended reading |
| EmployeeService.ParseActiveIntended | backend/src/services/employee_service.ts:107 | a JSON boolean is taken as it is; a string is inactive only when it is "false"; a missing value is active |
| EmployeeService.ParseActiveIntendedRoundTrip | backend/src/services/employee_service.ts:99-108 | under the intended reading both encodings of the flag read back as the flag, and it agrees with the code on every non-boolean value |
| EmployeeService.GetById | backend/src/services/employee_service.ts:45-68 | succeeds iff the user exists with role EMPLEADO, else "Empleado no encontrado" |
| EmployeeService.ToggleStatus | backend/src/services/employee_service.ts:132-147 | an absent user gives the error and no change; otherwise only that user's flag is negated and the answer is getById of the new state |
| EmployeeService.ToggleTwice | backend/src/services/employee_service.ts:132-147 | toggling twice restores the database |
| EmployeeService.ToggleFlipsOnlyFlag | backend/src/services/employee_service.ts:141-146 | nothing but the flag changes, and an employee's answer shows the new flag |
| EmployeeService.EmbeddedIds | backend/src/services/employee_service.ts:169-178 | the set holds exactly the image ids that already have an embedding |
| EmployeeService.Outcome | backend/src/services/employee_service.ts:183-209 | an embedded image is skipped; a missing file or a failed detection is an error; otherwise the normalised embedding of the found face |
| EmployeeService.FailedIds | backend/src/services/employee_service.ts:183-209 | every reported error is an image of the list that was not skipped |
| EmployeeService.CreatedRows | backend/src/services/employee_service.ts:183-209 | every created row belongs to an image of the list that was not skipped |
| EmployeeService.SkippedCount | backend/src/services/employee_service.ts:183-185 | nothing is skipped iff no image is already embedded |
| EmployeeService.OutcomesPartition | backend/src/services/employee_service.ts:180-217 | created + errors + skipped = images found |
| EmployeeService.GenerateEmbeddings | backend/src/services/employee_service.ts:154-218 | the guards give "Empleado no encontrado" or the no-images error without change; otherwise the report's counts partition the images, the error ids come in loop order, and exactly the created rows are appended |
| EmployeeService.ExtendPrefix | backend/src/services/employee_service.ts:183-209 | one more loop iteration extends the results by that image's outcome |
| EmployeeService.RerunCreatesNothing | backend/src/services/employee_service.ts:168-185 | a second run over the same images creates nothing |
| EmployeeService.MoreEmbeddedCreatesNothing | backend/src/services/employee_service.ts:178-185 | knowing more embedded ids never creates rows where there were none |
| Auth.BearerToken | backend/src/middlewares/auth.ts:20-24 | a token iff the header starts with "Bearer ", and the header is the prefix followed by the token |
| Auth.BearerRoundTrip | backend/src/middlewares/auth.ts:24 | "Bearer " + t yields t |
| Auth.Authenticate | backend/src/middlewares/auth.ts:12-32 | no bearer header gives 401 "Token no proporcionado"; a rejected token gives 401 "Token inválido o expirado"; next is called iff the token verifies, with its claims |
| Auth.OtherSchemeRejected | backend/src/middlewares/auth.ts:20-22 | a lower-case scheme is rejected as missing |
| Auth.RequireAdmin | backend/src/middlewares/auth.ts:34-43 | next iff the role is ADMIN, otherwise 403 |
| Auth.Login | backend/src/services/auth_service.ts:9-59 | the checks run in the order unknown, inactive, non-admin, no password, wrong password; "no password" holds iff the stored hash is absent or the empty string; success iff all pass with a non-empty hash that matches, returning the user's id, email, name and role |
| Auth.NonAdminNeverLogsIn | backend/src/services/auth_service.ts:30-32 | a non-administrator gets an error, the same for every password |
| Auth.UnknownEmailLikeWrongPassword | backend/src/services/auth_service.ts:22-42 | an unknown email and a wrong password against a non-empty hash give the same answer |
| Auth.EmptyHashIsNoPassword | backend/src/services/auth_service.ts:34-36 | an active admin whose stored hash is the empty string gets "Usuario sin contraseña configurada", not a password check |
| Auth.LoginTokenPassesGates | backend/src/services/auth_service.ts:44-48 | a token issued at login passes authMiddleware and isAdmin |
| EmbeddingsClient.FindMatch | frontend/src/services/embeddings.ts:76-112 | null for an empty corpus; a match has confidence ≥ the threshold (default 0.6) and > 0 and is the first maximum |
| EmbeddingsClient.FindMatchExists | frontend/src/services/embeddings.ts:83-110 | a match exists iff some similarity is positive and the highest reaches the threshold |
| EmbeddingsClient.EuclideanDistance | frontend/src/services/embeddings.ts:168-180 | Infinity iff the lengths differ; otherwise a non-negative value whose square is the sum of squared differences |
| EmbeddingsClient.EuclideanSymmetric | frontend/src/services/embeddings.ts:168-180 | the distance is symmetric |
| EmbeddingsClient.EuclideanZero | frontend/src/services/embeddings.ts:168-180 | the distance is 0 exactly between equal vectors |
| FaceDetectionHook.Flatten | frontend/src/hooks/useFaceDetection.ts:183-187 | 3n values, x, y, z per landmark in order |
| FaceDetectionHook.NormalizeVector | frontend/src/hooks/useFaceDetection.ts:198-213 | a zero-norm vector is returned unchanged; otherwise the length is kept and each component is divided by the norm |
| FaceDetectionHook.NormalizeMatchesBackend | frontend/src/hooks/useFaceDetection.ts:198-213 | the browser normalisation equals the backend's |
| FaceDetectionHook.LandmarksToEmbedding | frontend/src/hooks/useFaceDetection.ts:178-193 | 3n values, of unit sum of squares unless every landmark is at the origin |
| FaceDetectionHook.DetectFace | frontend/src/hooks/useFaceDetection.ts:74-112 | null without a landmarker or video, on an exception, or with no face; otherwise the first face with confidence 0.9 |
| FaceDetectionHook.StartDetection | frontend/src/hooks/useFaceDetection.ts:117-141 | a no-op while detecting; otherwise detection starts with last time 0 |
| FaceDetectionHook.StopDetection | frontend/src/hooks/useFaceDetection.ts:146-152 | detection stops |
| FaceDetectionHook.Frame | frontend/src/hooks/useFaceDetection.ts:127-138 | onDetection fires iff now − last ≥ interval, and then last becomes now |
| FaceDetectionHook.Frames | frontend/src/hooks/useFaceDetection.ts:127-138 | detections fire only at frame times |
| FaceDetectionHook.FramesSpaced | frontend/src/hooks/useFaceDetection.ts:127-138 | consecutive detections are at least one interval apart |
| CameraPage.PushRecent | frontend/src/pages/Camera.tsx:285 | the new record is first, the list holds at most 10, and the rest is the previous list in order |
| CameraPage.HandleDetection | frontend/src/pages/Camera.tsx:192-291 | the backend is called iff a face, the video, the canvas context and the JPEG blob all exist; each failing step leaves its own status (no face, no video, capture error, failure for a missing blob or a thrown request, unrecognised, incomplete, still identifying in the cooldown); a complete match outside the cooldown records the employee now, heads the capped list with the new record and shows "Identificado: " and the name; nothing else changes the map or the list |
| CameraPage.CooldownSuppressesRepeat | frontend/src/pages/Camera.tsx:262-268 | a repeat within 30 s of a recorded detection changes neither map nor list, though the backend was called |
| EmployeesHook.ReplaceById | frontend/src/hooks/useEmployees.ts:86-88 | same length; every element with the id is replaced and the others are kept |
| EmployeesHook.RemoveById | frontend/src/hooks/useEmployees.ts:118 | exactly the elements without that id remain |
| EmployeesHook.RemoveByIdSplits | frontend/src/hooks/useEmployees.ts:118 | removal works element by element, so the order is kept |
| EmployeesHook.CreateEmployee | frontend/src/hooks/useEmployees.ts:47-75 | success appends the new employee; failure keeps the list and rethrows; loading ends false |
| EmployeesHook.UpdateEmployee | frontend/src/hooks/useEmployees.ts:81-109 | success replaces by id; failure keeps the list and rethrows |
| EmployeesHook.DeleteEmployee | frontend/src/hooks/useEmployees.ts:114-137 | success removes by id; failure keeps the list and rethrows |
| EmployeesHook.FindById | frontend/src/hooks/useEmployees.ts:150 | the first employee with the id, or none iff there is none |
| EmployeesHook.ToggleEmployeeStatus | frontend/src/hooks/useEmployees.ts:142-170 | the list is replaced by id; the toast reads the flag from the list before the call |
| EmployeesHook.ToggleToastNamesNewState | frontend/src/hooks/useEmployees.ts:150-156 | when the server flips the flag, the toast names the new state |
| EmployeesPage.FilterEmployees | frontend/src/pages/Employees.tsx:41-52 | an employee is listed iff the term occurs in name, area or position, the area filter is all or equal, and the status filter is all or agrees |
| EmployeesPage.DefaultFiltersShowAll | frontend/src/pages/Employees.tsx:41-52 | with default filters, the whole list is shown in order |
| EmployeesPage.FilterSplits | frontend/src/pages/Employees.tsx:41-52 | the filter keeps the list order |
| EmployeesPage.AddImages | frontend/src/pages/Employees.tsx:58 | the new list is a prefix of old plus new, of at most 10, keeping every old photo |
| EmployeesPage.RemoveImage | frontend/src/pages/Employees.tsx:65 | removes exactly position i and keeps the others in order; an out-of-range index changes nothing |
| EmployeesPage.SubmitDisabled | frontend/src/pages/Employees.tsx:284 | disabled iff creating with fewer than 3 photos |
| EmployeesPage.SubmitDisabledBlocksShortCreations | frontend/src/pages/Employees.tsx:100-121 | the button blocks exactly the submissions that would create an employee with fewer than 3 photos; every update goes through |
| EmployeesPage.Submit | frontend/src/pages/Employees.tsx:97-120 | an update sends photos only when some were picked; a creation sends the list |
| EmployeesPage.CreationCarriesEnoughImages | frontend/src/pages/Employees.tsx:281-285 | a creation the button allows carries 3 to 10 photos |
| AttendancePage.RecordDate | frontend/src/pages/Attendance.tsx:46 | the date is the prefix of the ISO text up to its first T, or all of it when there is none |
| AttendancePage.FilterRecords | frontend/src/pages/Attendance.tsx:40-52 | a record is listed iff the employee filter is all or a case-insensitive substring, and its date is within the non-empty bounds |
| AttendancePage.FilterRecordsSplits | frontend/src/pages/Attendance.tsx:40-52 | the filter keeps the records' order |
| AttendancePage.BoundsInclusive | frontend/src/pages/Attendance.tsx:47-48 | a record dated on a bound day passes that bound |
| AttendancePage.CountKind | frontend/src/pages/Attendance.tsx:54-55 | a kind count is at most the listed records; it is 0 iff no record has the kind and the full length iff every record has it |
| AttendancePage.CountKindAppend | frontend/src/pages/Attendance.tsx:54-55 | the count over two lists is the sum of their counts |
| AttendancePage.CountersBounded | frontend/src/pages/Attendance.tsx:54-56 | entries plus exits are at most the listed records; unique employees are between 1 and their number when any are listed |
| AttendancePage.ClearedFiltersShowAll | frontend/src/pages/Attendance.tsx:90-94 | after clearing, every record is listed |
| AttendancePage.ExportDisabled | frontend/src/pages/Attendance.tsx:108 | export is disabled iff no record is listed |
| AttendancePage.ExportRequest | frontend/src/pages/Attendance.tsx:71-75 | the employee is sent only when not "all"; the dates are passed through |
| AppShell.ChangeSection | frontend/src/App.tsx:18-32 | logout gives camera and signed out; a protected section while signed out gives login; anything else sets the section |
| AppShell.LoginSucceeded | frontend/src/App.tsx:34-37 | sign-in renders the employees page from any state; the bar then offers logout and hides the login item |
| AppShell.Render | frontend/src/App.tsx:39-52 | the employees and attendance pages render only when signed in on that section; protected sections show the login form otherwise; unknown ones show the camera |
| AppShell.ConsistentPreserved | frontend/src/App.tsx:18-37 | no transition puts a signed-out shell on a protected section |
| AppShell.RunConsistent | frontend/src/App.tsx:18-37 | any sequence of navigation and sign-ins keeps the shell consistent |
| AppShell.VisibleFrom | frontend/src/components/Navbar.tsx:17-21 | an item is shown iff it is not hidden for a signed-in user and not protected for a visitor |
| AppShell.VisibleItems | frontend/src/components/Navbar.tsx:10-21 | signed in: camera, employees, attendance; signed out: camera, login; in declared order |
| AppShell.LogoutVisible | frontend/src/components/Navbar.tsx:46-53 | the logout button is shown iff signed in, which is exactly when the login item is hidden and both protected items are shown |
| AppShell.NavigationLandsOnItem | frontend/src/components/Navbar.tsx:31-53 | clicking a visible item renders that item's page, and logout signs out to the camera |
| LoginPage.ShortestMatch | frontend/src/pages/Login.tsx:24 | a match of \S+@\S+\.\S+ can be shrunk to one character around @ and after the dot |
| LoginPage.TestEmail | frontend/src/pages/Login.tsx:24 | the linear scan finds a match iff the regular expression matches some substring |
| LoginPage.Utf16Length | frontend/src/pages/Login.tsx:30 | length in UTF-16 code units, between the character count and twice it |
| LoginPage.Validate | frontend/src/pages/Login.tsx:19-33 | empty email gives the required error, an unmatched one the invalid error; empty password gives required, fewer than 6 units the length error |
| LoginPage.ValidateForm | frontend/src/pages/Login.tsx:19-36 | true iff the email matches and the password has at least 6 units |
| LoginPage.HandleSubmit | frontend/src/pages/Login.tsx:38-51 | login is called iff no error was recorded; onLoginSuccess fires iff login was called and resolved |
| LoginPage.SubmittedCredentialsAreShaped | frontend/src/pages/Login.tsx:41-46 | a submitted email has @, a dot and at least 5 characters; a submitted password is non-empty with at least 6 units |

## Left out

- Model inference is foreign and appears only as its outputs (`ModelRun`, `ArcFaceOutput`). This covers ONNX sessions and their lazy initialisation.
- The detector's image work is foreign in the same way: decoding, resizing, canvas drawing and JPEG encoding, as in preprocessForScrfd, preprocessForLandmarks, alignFaceSimple and the camera capture.
- The aligned image is not derived from the crop pixels. `Request.aligned` and `ImageInputs.aligned` are the model outputs for it, supplied as inputs.
- IEEE-754 float32 rounding, NaN and Infinity are not modelled, except the explicit `Infinity` of euclideanDistance. `Math.sqrt` and `Math.exp` are parameters.
- The float32 byte and base64 conversions are bit-level encodings: bufferToFloat32Array, base64ToFloat32Array and backend/src/services/embedding_service.ts.
- The `readFile` of an image is a lookup in the `files` map; a missing entry is a read failure.
- The embedding write is assumed to succeed: its failure inside the loop is not modelled.
- The CRUD paths of employee_service are persistence plumbing: getAll, create, update, delete and saveImages, with its hashing and file naming. Their logic is ParseActive, GetById and, when photos are attached, a run of GenerateEmbeddings after saving them (backend/src/services/employee_service.ts:83-94 and 112-121). Create and update discard that run's error and return the employee anyway.
- The HTTP layer is request plumbing: controllers, routes, multer limits, backend/src/index.ts, frontend/src/lib/api.ts and the frontend network clients for auth, employees and attendance.
- The frontend's useAuth hook (token storage) is an input: `HandleSubmit` takes whether `login` resolved.
- JWT signing and verification and bcrypt are parameters (`sign`, `verify`, `matches`). backend/scripts/create-admin.ts is not part of this model.
- The electron shell is not part of this model: process spawning and health polling.
- React rendering, toasts, MediaPipe, camera devices and requestAnimationFrame scheduling are UI. So are tailwind.config.ts, NotFound.tsx and Index.tsx.
- Concurrency is not modelled: racing model loads and concurrent attendance writes. The code has no synchronisation.
- Attendance.RecognizeAndRecord: reads one database snapshot for both the match (backend/src/services/attendance_service.ts:163) and the employee lookup (173-189). The code's "Empleado no encontrado" and "Empleado inactivo" replies arise only when the employee is deleted or deactivated between those two queries, so in the model they cannot occur (StaleLookupUnreachable); the contract still lists them in the code's order.
- Attendance.LatestKind: the latest event is the last one stored. This matches `orderBy: timestamp desc` only while rows are stored in timestamp order, which holds because each row takes the current time.
- Attendance.SortNewestFirst: rows with equal timestamps keep their stored order, oldest-stored first. The database leaves their order unspecified.
- Attendance.SelectRows: the date filters are already parsed to milliseconds, since `new Date(text)` parsing is not modelled. The name test is a case-sensitive substring test, because the database's collation is not modelled.
- EmployeesPage.FilterEmployees: lower-cases ASCII letters only, whereas `toLowerCase` folds all of Unicode.
- AttendancePage.FilterRecords: lower-cases ASCII letters only, whereas `toLowerCase` folds all of Unicode. `toISOString` is the `iso` text carried by each record.
- Attendance.ExportCsv: `toISOString` is a parameter. The round trip holds only for names and areas without commas or line breaks, because the export does no quoting.
- ScrfdDecode.DecodeOutputs: requires at least four distances per score in each stride's tensors (`WellShaped`) and a detector input at least 32 wide. These are properties of the model file.
- FaceDetection.DetectAndAlignFace: fixes both model input sizes (`DefaultSizes`). The detector input is 640×640; the code reads it from the detector's metadata and falls back to 640 only when the metadata gives none (backend/src/services/face_detection_service.ts:57-67). The landmark input is 192×192, which the code likewise replaces with the size in the model's metadata. DetectMainFace takes the sizes as a parameter. ComputeEmbeddingFromImage, EmployeeService.Outcome and Attendance.RecognizeAndRecord inherit the fixed sizes.
- Auth.Login: requires the looked-up user to carry the email it was found by, as `findUnique({ where: { email } })` guarantees.

## Findings

| source | as written | input that shows it | evidently intended | confidence | as-written member | corrected member |
|---|---|---|---|---|---|---|
| backend/src/services/employee_service.ts:107 | `update` stores `activo: data.activo !== 'false'`, a test for the form string only | editing an employee, clearing "Empleado activo" and saving without new photos: frontend/src/services/employees.ts:112 then sends a JSON body with the boolean `false`, which is not the string `'false'` | a JSON boolean is stored as it is, so the employee becomes inactive | medium, not executed | EmployeeService.ParseActiveJsonFalse | EmployeeService.ParseActiveIntendedRoundTrip |
